/** The volumes a controller can see on the NAS, and the lookups by name and by id. */
module Volumes {
  import opened Wrappers
  import opened Capacity
  import opened Nas

  const PREFIX := "k8s-csi"
  const MAX_SHARE_NAME := 32

  function GenLunName(volName: string): string {
    PREFIX + "-" + volName
  }

  /** Share names are cut to 32 bytes. */
  function GenShareName(volName: string): string {
    var name := PREFIX + "-" + volName;
    if |name| > MAX_SHARE_NAME then name[..MAX_SHARE_NAME] else name
  }

  const ZERO_LUN := Lun("", 0, 0, false, "", 0)
  const ZERO_SHARE := Share("", 0, 0, "", 0)

  /** A volume record: the part that belongs to the other protocol is the zero value. */
  datatype Volume = Volume(id: nat, sizeInBytes: int64, name: string, protocol: Protocol, lun: Lun, share: Share)

  function LunVolume(l: Lun): Volume {
    Volume(l.uuid, ToInt64(l.size), l.name, Iscsi, l, ZERO_SHARE)
  }

  function ShareVolume(s: Share): Volume {
    Volume(s.uuid, MBToBytes(s.quotaMB), s.name, Smb, ZERO_LUN, s)
  }

  // ---------- Visibility ----------

  ghost predicate VisibleOn(s: State, n: string, tn: string, v: Volume) {
    && n in s.luns && tn in s.targets && s.luns[n].uuid in s.targets[tn].mapped
    && PREFIX <= n && v == LunVolume(s.luns[n])
  }

  /** A LUN of the driver's that some target maps. */
  ghost predicate VisibleIscsi(s: State, v: Volume) {
    exists n, tn :: VisibleOn(s, n, tn, v)
  }

  ghost predicate VisibleSmb(s: State, v: Volume) {
    exists n :: n in s.shares && PREFIX <= n && v == ShareVolume(s.shares[n])
  }

  ghost predicate Visible(s: State, v: Volume) {
    VisibleIscsi(s, v) || VisibleSmb(s, v)
  }

  /** The targets that map a LUN. */
  ghost function Mappers(s: State, uuid: nat): set<string> {
    set tn | tn in s.targets && uuid in s.targets[tn].mapped
  }

  function CountMapping(ts: seq<Target>, uuid: nat): nat {
    if ts == [] then 0 else CountMapping(ts[..|ts| - 1], uuid) + if uuid in ts[|ts| - 1].mapped then 1 else 0
  }

  ghost function MappersIn(ts: seq<Target>, uuid: nat): set<string> {
    set i | 0 <= i < |ts| && uuid in ts[i].mapped :: ts[i].name
  }

  lemma {:induction false} CountIsSize(ts: seq<Target>, uuid: nat)
    requires forall i, j :: 0 <= i < j < |ts| ==> ts[i].name != ts[j].name
    ensures CountMapping(ts, uuid) == |MappersIn(ts, uuid)|
  {
    if ts != [] {
      var front, last := ts[..|ts| - 1], ts[|ts| - 1];
      CountIsSize(front, uuid);
      assert last.name !in MappersIn(front, uuid);
      assert MappersIn(ts, uuid) == MappersIn(front, uuid) + if uuid in last.mapped then {last.name} else {};
    }
  }

  lemma CountIsMappers(s: State, ts: seq<Target>, uuid: nat)
    requires WellFormed(s) && forall i, j :: 0 <= i < j < |ts| ==> ts[i].name != ts[j].name
    requires forall t :: t in ts <==> exists n :: n in s.targets && s.targets[n] == t
    ensures CountMapping(ts, uuid) == |Mappers(s, uuid)|
  {
    CountIsSize(ts, uuid);
    forall tn | tn in Mappers(s, uuid)
      ensures tn in MappersIn(ts, uuid)
    {
      assert s.targets[tn] in ts;
      var i :| 0 <= i < |ts| && ts[i] == s.targets[tn];
    }
    forall tn | tn in MappersIn(ts, uuid)
      ensures tn in Mappers(s, uuid)
    {
      var i :| 0 <= i < |ts| && uuid in ts[i].mapped && ts[i].name == tn;
      assert ts[i] in ts;
    }
    assert Mappers(s, uuid) == MappersIn(ts, uuid);
  }

  // ---------- Listing ----------

  /** A LUN's records in the list number `count`. */
  ghost predicate Listed(s: State, infos: seq<Volume>, n: string, count: nat)
    requires n in s.luns
  {
    multiset(infos)[LunVolume(s.luns[n])] == count
  }

  method ListTarget(dsm: Dsm, target: Target) returns (infos: seq<Volume>)
    requires WellFormed(dsm.Now()) && target.name in dsm.targets && dsm.targets[target.name] == target
    modifies dsm`faults, dsm`served
    ensures forall v :: v in infos ==> VisibleIscsi(dsm.Now(), v)
    ensures dsm.faults >= old(dsm.faults) && (dsm.QuotaIsStuck() ==> dsm.faults == old(dsm.faults))
    ensures dsm.faults == old(dsm.faults) ==>
              forall n :: n in dsm.luns && PREFIX <= n ==>
                Listed(dsm.Now(), infos, n, if dsm.luns[n].uuid in target.mapped then 1 else 0)
  {
    infos := [];
    for i := 0 to |target.mapped|
      invariant forall v :: v in infos ==> VisibleIscsi(dsm.Now(), v)
      invariant dsm.faults >= old(dsm.faults) && (dsm.QuotaIsStuck() ==> dsm.faults == old(dsm.faults))
      invariant dsm.faults == old(dsm.faults) ==>
                  forall n :: n in dsm.luns && PREFIX <= n ==>
                    Listed(dsm.Now(), infos, n, if dsm.luns[n].uuid in target.mapped[..i] then 1 else 0)
    {
      assert target.mapped[..i + 1] == target.mapped[..i] + [target.mapped[i]];
      NotBefore(target.mapped, i);
      var found := dsm.LunGetByUuid(target.mapped[i]);
      // a failed read leaves an empty record, whose name lacks the prefix
      var lun := if found.Some? then found.value else ZERO_LUN;
      if !(PREFIX <= lun.name) {
        continue;
      }
      assert VisibleOn(dsm.Now(), lun.name, target.name, LunVolume(lun));
      infos := infos + [LunVolume(lun)];
    }
    assert target.mapped[..|target.mapped|] == target.mapped;
  }

  lemma NotBefore(ids: seq<nat>, i: nat)
    requires NoTwice(ids) && i < |ids|
    ensures ids[i] !in ids[..i]
  {
  }

  /** With no failed call, a LUN of the driver is listed as many times as targets map it. */
  method ListISCSIVolumes(dsm: Dsm) returns (infos: seq<Volume>)
    requires WellFormed(dsm.Now())
    modifies dsm`faults, dsm`served
    ensures forall v :: v in infos ==> VisibleIscsi(dsm.Now(), v)
    ensures dsm.faults >= old(dsm.faults) && (dsm.QuotaIsStuck() ==> dsm.faults == old(dsm.faults))
    ensures dsm.faults == old(dsm.faults) ==> forall v :: VisibleIscsi(dsm.Now(), v) ==> v in infos
    ensures dsm.faults == old(dsm.faults) ==>
              forall n :: n in dsm.luns && PREFIX <= n ==>
                multiset(infos)[LunVolume(dsm.luns[n])] == |Mappers(dsm.Now(), dsm.luns[n].uuid)|
  {
    infos := [];
    var list := dsm.TargetList();
    if list.None? {
      return;
    }
    var targetInfos := list.value;
    for i := 0 to |targetInfos|
      invariant forall v :: v in infos ==> VisibleIscsi(dsm.Now(), v)
      invariant dsm.faults >= old(dsm.faults) && (dsm.QuotaIsStuck() ==> dsm.faults == old(dsm.faults))
      invariant dsm.faults == old(dsm.faults) ==>
                  forall n :: n in dsm.luns && PREFIX <= n ==>
                    Listed(dsm.Now(), infos, n, CountMapping(targetInfos[..i], dsm.luns[n].uuid))
    {
      assert targetInfos[i] in list.value;
      var some := ListTarget(dsm, targetInfos[i]);
      assert targetInfos[..i + 1][..i] == targetInfos[..i];
      infos := infos + some;
    }
    assert targetInfos[..|targetInfos|] == targetInfos;
    if dsm.faults == old(dsm.faults) {
      AllMappersListed(dsm.Now(), targetInfos, infos);
    }
  }

  lemma AllMappersListed(s: State, ts: seq<Target>, infos: seq<Volume>)
    requires WellFormed(s) && forall i, j :: 0 <= i < j < |ts| ==> ts[i].name != ts[j].name
    requires forall t :: t in ts <==> exists n :: n in s.targets && s.targets[n] == t
    requires forall n :: n in s.luns && PREFIX <= n ==> Listed(s, infos, n, CountMapping(ts, s.luns[n].uuid))
    ensures forall n :: n in s.luns && PREFIX <= n ==>
              multiset(infos)[LunVolume(s.luns[n])] == |Mappers(s, s.luns[n].uuid)|
    ensures forall v :: VisibleIscsi(s, v) ==> v in infos
  {
    forall n | n in s.luns && PREFIX <= n
      ensures multiset(infos)[LunVolume(s.luns[n])] == |Mappers(s, s.luns[n].uuid)|
    {
      CountIsMappers(s, ts, s.luns[n].uuid);
      assert Listed(s, infos, n, CountMapping(ts, s.luns[n].uuid));
    }
    forall v | VisibleIscsi(s, v)
      ensures v in infos
    {
      var n, tn :| VisibleOn(s, n, tn, v);
      assert tn in Mappers(s, s.luns[n].uuid);
      assert multiset(infos)[v] > 0;
    }
  }

  method ListSMBVolumes(dsm: Dsm) returns (infos: seq<Volume>)
    requires WellFormed(dsm.Now())
    modifies dsm`faults, dsm`served
    ensures forall v :: v in infos ==> VisibleSmb(dsm.Now(), v)
    ensures dsm.faults >= old(dsm.faults) && (dsm.QuotaIsStuck() ==> dsm.faults == old(dsm.faults))
    ensures dsm.faults == old(dsm.faults) ==> forall v :: VisibleSmb(dsm.Now(), v) ==> v in infos
  {
    infos := [];
    var list := dsm.ShareList();
    if list.None? {
      return;
    }
    var shares := list.value;
    for i := 0 to |shares|
      invariant forall v :: v in infos ==> VisibleSmb(dsm.Now(), v)
      invariant forall k :: 0 <= k < i && PREFIX <= shares[k].name ==> ShareVolume(shares[k]) in infos
    {
      assert shares[i] in list.value;
      if !(PREFIX <= shares[i].name) {
        continue;
      }
      assert VisibleSmb(dsm.Now(), ShareVolume(shares[i]));
      infos := infos + [ShareVolume(shares[i])];
    }
    forall v | VisibleSmb(dsm.Now(), v)
      ensures v in infos
    {
      var n :| n in dsm.shares && PREFIX <= n && v == ShareVolume(dsm.shares[n]);
      assert dsm.shares[n] in shares;
    }
  }

  ghost predicate LunsFirst(infos: seq<Volume>) {
    forall i, j :: 0 <= i < j < |infos| && infos[i].protocol == Smb ==> infos[j].protocol == Smb
  }

  /** LUNs come before shares. */
  method ListVolumes(dsm: Dsm) returns (infos: seq<Volume>)
    requires WellFormed(dsm.Now())
    modifies dsm`faults, dsm`served
    ensures forall v :: v in infos ==> Visible(dsm.Now(), v)
    ensures dsm.faults >= old(dsm.faults) && (dsm.QuotaIsStuck() ==> dsm.faults == old(dsm.faults))
    ensures dsm.faults == old(dsm.faults) ==> forall v :: Visible(dsm.Now(), v) ==> v in infos
    ensures LunsFirst(infos)
  {
    var iscsi := ListISCSIVolumes(dsm);
    var smb := ListSMBVolumes(dsm);
    infos := iscsi + smb;
    assert forall i :: 0 <= i < |iscsi| ==> iscsi[i] in iscsi;
    assert forall i :: 0 <= i < |smb| ==> smb[i] in smb;
  }

  // ---------- Lookups ----------

  predicate IsNamed(volName: string, backing: string) {
    backing == GenLunName(volName) || backing == GenShareName(volName)
  }

  lemma NoLunBefore(s: State, infos: seq<Volume>, i: nat, volName: string)
    requires i < |infos| && infos[i].protocol == Smb && LunsFirst(infos)
    requires forall v :: Visible(s, v) ==> v in infos
    requires forall k :: 0 <= k < i ==> !IsNamed(volName, infos[k].name)
    ensures forall v :: VisibleIscsi(s, v) ==> !IsNamed(volName, v.name)
  {
    hide IsNamed;
    forall v | VisibleIscsi(s, v)
      ensures !IsNamed(volName, v.name)
    {
      assert Visible(s, v);
      var k :| 0 <= k < |infos| && infos[k] == v;
      assert k < i;
    }
  }

  /** The first record with one of the two backing names: a LUN, if there is one, and else a share. */
  method GetVolumeByName(dsm: Dsm, volName: string) returns (r: Option<Volume>)
    requires WellFormed(dsm.Now())
    modifies dsm`faults, dsm`served
    ensures r.Some? ==> Visible(dsm.Now(), r.value) && IsNamed(volName, r.value.name)
    ensures dsm.faults >= old(dsm.faults) && (dsm.QuotaIsStuck() ==> dsm.faults == old(dsm.faults))
    ensures dsm.faults == old(dsm.faults) && r.None? ==> forall v :: Visible(dsm.Now(), v) ==> !IsNamed(volName, v.name)
    ensures dsm.faults == old(dsm.faults) && r.Some? && r.value.protocol == Smb ==>
              forall v :: VisibleIscsi(dsm.Now(), v) ==> !IsNamed(volName, v.name)
  {
    var volumes := ListVolumes(dsm);
    for i := 0 to |volumes|
      invariant forall k :: 0 <= k < i ==> !IsNamed(volName, volumes[k].name)
    {
      if volumes[i].name == GenLunName(volName) || volumes[i].name == GenShareName(volName) {
        assert volumes[i] in volumes;
        if volumes[i].protocol == Smb && dsm.faults == old(dsm.faults) {
          NoLunBefore(dsm.Now(), volumes, i, volName);
        }
        return Some(volumes[i]);
      }
    }
    r := None;
  }

  method GetVolume(dsm: Dsm, volId: nat) returns (r: Option<Volume>)
    requires WellFormed(dsm.Now())
    modifies dsm`faults, dsm`served
    ensures r.Some? ==> Visible(dsm.Now(), r.value) && r.value.id == volId
    ensures dsm.faults >= old(dsm.faults) && (dsm.QuotaIsStuck() ==> dsm.faults == old(dsm.faults))
    ensures dsm.faults == old(dsm.faults) && r.None? ==> forall v :: Visible(dsm.Now(), v) ==> v.id != volId
  {
    var volumes := ListVolumes(dsm);
    for i := 0 to |volumes|
      invariant forall k :: 0 <= k < i ==> volumes[k].id != volId
    {
      if volumes[i].id == volId {
        assert volumes[i] in volumes;
        return Some(volumes[i]);
      }
    }
    r := None;
  }

  // ---------- Whose volume a name can find ----------

  /** A lookup for `volName` takes the LUN of another volume for its own exactly when `volName` is longer than
      24 bytes and the other volume is named by its first 24 bytes. */
  lemma LunAliasExactly(volName: string, other: string)
    ensures IsNamed(volName, GenLunName(other)) <==> other == volName || (|volName| > 24 && other == volName[..24])
  {
    var a, b := GenLunName(volName), GenLunName(other);
    assert a[8..] == volName && b[8..] == other;
    if |volName| > 24 {
      assert GenShareName(volName)[8..] == volName[..24];
      assert GenLunName(volName[..24]) == a[..32];
    }
  }

  /** For names of at most 24 bytes both backing names are the same, and distinct volumes have distinct ones. */
  lemma ShortNames(volName: string)
    requires |volName| <= 24
    ensures GenShareName(volName) == GenLunName(volName)
  {
  }

  /** Two volumes get the same share exactly when their names agree on the first 24 bytes and
      are the same or both at least that long. */
  lemma ShareAliasExactly(volName: string, other: string)
    ensures GenShareName(volName) == GenShareName(other) <==>
            volName == other || (|volName| >= 24 && |other| >= 24 && volName[..24] == other[..24])
  {
    ShareNameTail(volName);
    ShareNameTail(other);
    if |volName| >= 24 {
      assert |volName| == 24 ==> volName[..24] == volName;
    }
    if |other| >= 24 {
      assert |other| == 24 ==> other[..24] == other;
    }
  }

  lemma ShareNameTail(volName: string)
    ensures GenShareName(volName) == PREFIX + "-" + if |volName| > 24 then volName[..24] else volName
    ensures GenShareName(volName)[8..] == if |volName| > 24 then volName[..24] else volName
    ensures PREFIX <= GenShareName(volName) && PREFIX <= GenLunName(volName)
  {
    var name := PREFIX + "-" + volName;
    if |volName| > 24 {
      assert name[..32] == PREFIX + "-" + volName[..24];
    }
  }
}
