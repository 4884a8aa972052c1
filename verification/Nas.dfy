/** One DSM (the NAS) as the driver sees it: LUNs, targets, mappings, shares and snapshots behind
    API calls, each of which may fail before or after it has taken effect. */
module Nas {
  import opened Wrappers
  import opened Capacity

  // `data` stands for the contents of a LUN, share or snapshot, 0 for none
  datatype Lun = Lun(name: string, uuid: nat, size: uint64, locked: bool, location: string, data: nat)

  datatype Target = Target(name: string, id: nat, maxSessions: nat, mapped: seq<nat>)

  datatype Share = Share(name: string, uuid: nat, quotaMB: int64, location: string, data: nat)

  datatype Protocol = Iscsi | Smb

  datatype Snapshot = Snapshot(uuid: nat, parentUuid: nat, parentName: string, size: int64, rootPath: string,
                               protocol: Protocol, data: nat)

  /** The NAS as a value. LUNs, targets and shares are kept by name: the NAS refuses a second one of
      the same name. */
  datatype State = State(luns: map<string, Lun>, targets: map<string, Target>, shares: map<string, Share>,
                         snapshots: map<nat, Snapshot>, nextId: nat)

  /** Names match, a share has one, identifiers have been handed out (0 stands for the empty one), no two LUNs or
      shares and no LUN and share have the same one, and no target maps a LUN twice. */
  ghost predicate WellFormed(s: State) {
    && 0 < s.nextId
    && (forall n :: n in s.luns ==> s.luns[n].name == n && 0 < s.luns[n].uuid < s.nextId)
    && (forall n :: n in s.shares ==> s.shares[n].name == n && 0 < s.shares[n].uuid < s.nextId)
    && "" !in s.shares
    && (forall n :: n in s.targets ==> s.targets[n].name == n && s.targets[n].id < s.nextId)
    && (forall n, k :: n in s.targets && k in s.targets[n].mapped ==> k < s.nextId)
    && (forall n :: n in s.targets ==> NoTwice(s.targets[n].mapped))
    && (forall m, n :: m in s.luns && n in s.luns && m != n ==> s.luns[m].uuid != s.luns[n].uuid)
    && (forall m, n :: m in s.shares && n in s.shares && m != n ==> s.shares[m].uuid != s.shares[n].uuid)
    && (forall m, n :: m in s.luns && n in s.shares ==> s.luns[m].uuid != s.shares[n].uuid)
    && (forall m, n :: m in s.targets && n in s.targets && m != n ==> s.targets[m].id != s.targets[n].id)
  }

  ghost predicate NoTwice(ids: seq<nat>) {
    forall i, j :: 0 <= i < j < |ids| ==> ids[i] != ids[j]
  }

  /** A snapshot is found under its own id and has a size. */
  ghost predicate Sound(s: State) {
    && WellFormed(s)
    && (forall k :: k in s.snapshots ==> s.snapshots[k].uuid == k && s.snapshots[k].size >= 0)
  }

  function AddLun(s: State, name: string, size: uint64, locked: bool, location: string, data: nat): State {
    s.(luns := s.luns[name := Lun(name, s.nextId, size, locked, location, data)], nextId := s.nextId + 1)
  }

  function AddTarget(s: State, name: string): State {
    s.(targets := s.targets[name := Target(name, s.nextId, 1, [])], nextId := s.nextId + 1)
  }

  function AddShare(s: State, name: string, quotaMB: int64, location: string, data: nat): State {
    s.(shares := s.shares[name := Share(name, s.nextId, quotaMB, location, data)], nextId := s.nextId + 1)
  }

  function SetTarget(s: State, name: string, t: Target): State {
    s.(targets := s.targets[name := t])
  }

  /** Mapping a LUN that is mapped already changes nothing. */
  function Mapped(t: Target, uuid: nat): Target {
    if uuid in t.mapped then t else t.(mapped := t.mapped + [uuid])
  }

  function SetLun(s: State, name: string, l: Lun): State {
    s.(luns := s.luns[name := l])
  }

  function SetShare(s: State, name: string, share: Share): State {
    s.(shares := s.shares[name := share])
  }

  /** The contents of a share, or those of its snapshot; nothing if what is to be copied is not there. */
  function ContentsOf(s: State, source: string, snapshot: Option<nat>): (data: Option<nat>)
    ensures data.Some? ==> source in s.shares
  {
    if source !in s.shares then None
    else if snapshot.None? then Some(s.shares[source].data)
    else if snapshot.value in s.snapshots then Some(s.snapshots[snapshot.value].data)
    else None
  }

  datatype Fault = Works | FailsBefore | FailsAfter

  datatype Api =
    | CreateLun | CloneLun | CloneSnapshot | GetLun | UpdateLun
    | CreateTarget | GetTarget | SetSessions | MapLun | ListTargets
    | ListShares | GetShare | CreateShare | CloneShare | SetQuota | ReadOther

  datatype Status = Done | AlreadyExists | Failed

  class Dsm {
    var luns: map<string, Lun>
    var targets: map<string, Target>
    var shares: map<string, Share>
    var snapshots: map<nat, Snapshot>
    var nextId: nat
    // what becomes of a call of an API at a given time, whether a share clone then comes without its quota, and
    // whether the copying of a LUN is then done
    const luck: (Api, nat) -> Fault
    const losesQuota: nat -> bool
    const copied: nat -> bool
    // the time: how many API calls there have been, and how many have failed without a reason in the NAS's own state
    var served: nat
    ghost var faults: nat

    constructor (s: State, luck: (Api, nat) -> Fault, losesQuota: nat -> bool, copied: nat -> bool)
      ensures Now() == s && this.luck == luck && this.losesQuota == losesQuota && this.copied == copied
    {
      luns, targets, shares, snapshots, nextId := s.luns, s.targets, s.shares, s.snapshots, s.nextId;
      this.luck, this.losesQuota, this.copied := luck, losesQuota, copied;
      served, faults := 0, 0;
    }

    ghost function Now(): State
      reads this
    {
      State(luns, targets, shares, snapshots, nextId)
    }

    /** Clones of shares come without a quota and no quota can be set, while everything else works. */
    ghost predicate QuotaIsStuck() {
      && (forall api: Api, t: nat :: luck(api, t) == if api == SetQuota then FailsBefore else Works)
      && (forall t: nat :: losesQuota(t))
    }

    /** The copying of a LUN takes no time. */
    ghost predicate CopiesAtOnce() {
      forall t: nat :: copied(t)
    }

    method Luck(api: Api) returns (fault: Fault)
      modifies this`faults, this`served
      ensures faults == old(faults) + if fault == Works then 0 else 1
      ensures QuotaIsStuck() ==> fault == if api == SetQuota then FailsBefore else Works
    {
      fault := luck(api, served);
      served := served + 1;
      if fault != Works {
        faults := faults + 1;
      }
    }

    method LunCreate(name: string, size: int64, location: string) returns (r: Status)
      modifies this`luns, this`nextId, this`faults, this`served
      ensures Now() == old(Now()) ||
              (size >= 0 && name !in old(luns) && Now() == AddLun(old(Now()), name, size, false, location, 0))
      ensures r == Done ==>
                size >= 0 && name !in old(luns) && Now() == AddLun(old(Now()), name, size, false, location, 0)
      ensures r == AlreadyExists ==> name in old(luns)
      ensures faults >= old(faults) && (faults == old(faults) && size >= 0 ==> r != Failed)
    {
      var fault := Luck(CreateLun);
      if fault == FailsBefore {
        return Failed;
      }
      if name in luns {
        return if fault == Works then AlreadyExists else Failed;
      }
      if size < 0 {
        return Failed;
      }
      luns := luns[name := Lun(name, nextId, size, false, location, 0)];
      nextId := nextId + 1;
      r := if fault == Works then Done else Failed;
    }

    /** The clone of a LUN: it has the source's size and contents, and stays locked while the copying goes on. */
    method LunClone(name: string, source: nat, location: string) returns (r: Status)
      modifies this`luns, this`nextId, this`faults, this`served
      ensures Now() == old(Now()) ||
              (name !in old(luns) && name in luns &&
               exists n :: n in old(luns) && old(luns)[n].uuid == source &&
                           Now() == AddLun(old(Now()), name, old(luns)[n].size, luns[name].locked, location,
                                           old(luns)[n].data))
      ensures CopiesAtOnce() && name !in old(luns) && name in luns ==> !luns[name].locked
      ensures r == Done ==> name in luns
      ensures r == AlreadyExists ==> name in old(luns)
      ensures faults >= old(faults)
      ensures faults == old(faults) && (exists n :: n in old(luns) && old(luns)[n].uuid == source) ==> r != Failed
    {
      var fault := Luck(CloneLun);
      if fault == FailsBefore {
        return Failed;
      }
      if name in luns {
        return if fault == Works then AlreadyExists else Failed;
      }
      if n :| n in luns && luns[n].uuid == source {
        luns := luns[name := Lun(name, nextId, luns[n].size, !copied(served), location, luns[n].data)];
        nextId := nextId + 1;
        return if fault == Works then Done else Failed;
      }
      r := Failed;
    }

    /** The clone of a snapshot has the snapshot's size and contents. */
    method SnapshotClone(name: string, source: nat, location: string) returns (r: Status)
      requires forall k :: k in snapshots ==> snapshots[k].size >= 0
      modifies this`luns, this`nextId, this`faults, this`served
      ensures Now() == old(Now()) ||
              (name !in old(luns) && name in luns && source in old(snapshots) &&
               Now() == AddLun(old(Now()), name, old(snapshots)[source].size, luns[name].locked, location,
                               old(snapshots)[source].data))
      ensures CopiesAtOnce() && name !in old(luns) && name in luns ==> !luns[name].locked
      ensures r == Done ==> name in luns
      ensures r == AlreadyExists ==> name in old(luns)
      ensures faults >= old(faults)
      ensures faults == old(faults) && source in old(snapshots) ==> r != Failed
    {
      var fault := Luck(CloneSnapshot);
      if fault == FailsBefore {
        return Failed;
      }
      if name in luns {
        return if fault == Works then AlreadyExists else Failed;
      }
      if source in snapshots {
        var snapshot := snapshots[source];
        luns := luns[name := Lun(name, nextId, snapshot.size, !copied(served), location, snapshot.data)];
        nextId := nextId + 1;
        return if fault == Works then Done else Failed;
      }
      r := Failed;
    }

    method LunGet(name: string) returns (r: Option<Lun>)
      modifies this`faults, this`served
      ensures r.Some? ==> name in luns && r.value == luns[name]
      ensures faults >= old(faults) && (faults == old(faults) && name in luns ==> r.Some?)
    {
      var fault := Luck(GetLun);
      r := if fault == Works && name in luns then Some(luns[name]) else None;
    }

    method LunGetByUuid(uuid: nat) returns (r: Option<Lun>)
      modifies this`faults, this`served
      ensures r.Some? ==> r.value.uuid == uuid && exists n :: n in luns && luns[n] == r.value
      ensures faults >= old(faults)
      ensures faults == old(faults) && (exists n :: n in luns && luns[n].uuid == uuid) ==> r.Some?
      ensures QuotaIsStuck() ==> faults == old(faults)
    {
      var fault := Luck(GetLun);
      r := None;
      if fault == Works {
        if n :| n in luns && luns[n].uuid == uuid {
          r := Some(luns[n]);
        }
      }
    }

    method LunUpdate(uuid: nat, newSize: uint64) returns (r: Status)
      modifies this`luns, this`faults, this`served
      ensures Now() == old(Now()) ||
              exists n :: n in old(luns) && old(luns)[n].uuid == uuid &&
                          Now() == SetLun(old(Now()), n, old(luns)[n].(size := newSize))
      ensures r == Done ==>
              exists n :: n in old(luns) && old(luns)[n].uuid == uuid &&
                          Now() == SetLun(old(Now()), n, old(luns)[n].(size := newSize))
      ensures r != AlreadyExists && faults >= old(faults)
      ensures faults == old(faults) && (exists n :: n in old(luns) && old(luns)[n].uuid == uuid) ==> r == Done
    {
      var fault := Luck(UpdateLun);
      if fault == FailsBefore {
        return Failed;
      }
      if n :| n in luns && luns[n].uuid == uuid {
        luns := luns[n := luns[n].(size := newSize)];
        return if fault == Works then Done else Failed;
      }
      r := Failed;
    }

    /** Time passes while the driver waits: the copying of a cloned LUN may or may not finish. */
    method Pause(name: string)
      modifies this`luns
      ensures Now() == old(Now()) ||
              (name in old(luns) && Now() == SetLun(old(Now()), name, old(luns)[name].(locked := false)))
    {
      if copied(served) && name in luns {
        luns := luns[name := luns[name].(locked := false)];
      }
    }

    method TargetCreate(name: string) returns (r: Status)
      modifies this`targets, this`nextId, this`faults, this`served
      ensures Now() == old(Now()) || (name !in old(targets) && Now() == AddTarget(old(Now()), name))
      ensures r == Done ==> name in targets
      ensures r == AlreadyExists ==> name in old(targets)
      ensures faults >= old(faults) && (faults == old(faults) ==> r != Failed)
    {
      var fault := Luck(CreateTarget);
      if fault == FailsBefore {
        return Failed;
      }
      if name in targets {
        return if fault == Works then AlreadyExists else Failed;
      }
      targets := targets[name := Target(name, nextId, 1, [])];
      nextId := nextId + 1;
      r := if fault == Works then Done else Failed;
    }

    method TargetGet(name: string) returns (r: Option<Target>)
      modifies this`faults, this`served
      ensures r.Some? ==> name in targets && r.value == targets[name]
      ensures faults >= old(faults) && (faults == old(faults) && name in targets ==> r.Some?)
    {
      var fault := Luck(GetTarget);
      r := if fault == Works && name in targets then Some(targets[name]) else None;
    }

    /** Sets the session limit of the target with this id; 0 lifts it. */
    method TargetSet(name: string, id: nat, maxSessions: nat) returns (r: Status)
      requires name in targets && targets[name].id == id
      modifies this`targets, this`faults, this`served
      ensures Now() == old(Now()) ||
              Now() == SetTarget(old(Now()), name, old(targets)[name].(maxSessions := maxSessions))
      ensures r == Done ==> Now() == SetTarget(old(Now()), name, old(targets)[name].(maxSessions := maxSessions))
      ensures faults >= old(faults) && (faults == old(faults) ==> r == Done)
    {
      var fault := Luck(SetSessions);
      if fault == FailsBefore {
        return Failed;
      }
      targets := targets[name := targets[name].(maxSessions := maxSessions)];
      r := if fault == Works then Done else Failed;
    }

    method LunMapTarget(name: string, id: nat, uuid: nat) returns (r: Status)
      requires name in targets && targets[name].id == id
      modifies this`targets, this`faults, this`served
      ensures Now() == old(Now()) || Now() == SetTarget(old(Now()), name, Mapped(old(targets)[name], uuid))
      ensures r == Done ==> Now() == SetTarget(old(Now()), name, Mapped(old(targets)[name], uuid))
      ensures faults >= old(faults) && (faults == old(faults) ==> r == Done)
    {
      var fault := Luck(MapLun);
      if fault == FailsBefore {
        return Failed;
      }
      targets := targets[name := Mapped(targets[name], uuid)];
      r := if fault == Works then Done else Failed;
    }

    /** All targets, in whatever order the NAS gives them. */
    method TargetList() returns (r: Option<seq<Target>>)
      requires forall n :: n in targets ==> targets[n].name == n
      modifies this`faults, this`served
      ensures r.Some? ==> forall t :: t in r.value <==> exists n :: n in targets && targets[n] == t
      ensures r.Some? ==> forall i, j :: 0 <= i < j < |r.value| ==> r.value[i].name != r.value[j].name
      ensures faults >= old(faults) && (faults == old(faults) ==> r.Some?)
      ensures QuotaIsStuck() ==> faults == old(faults)
    {
      var fault := Luck(ListTargets);
      if fault != Works {
        return None;
      }
      var infos: seq<Target> := [];
      var left := targets.Keys;
      while left != {}
        invariant left <= targets.Keys
        invariant forall t :: t in infos <==> exists n :: n in targets && n !in left && targets[n] == t
        invariant forall i :: 0 <= i < |infos| ==> infos[i].name !in left
        invariant forall i, j :: 0 <= i < j < |infos| ==> infos[i].name != infos[j].name
        decreases |left|
      {
        var n :| n in left;
        left := left - {n};
        infos := infos + [targets[n]];
      }
      r := Some(infos);
    }

    method ShareList() returns (r: Option<seq<Share>>)
      modifies this`faults, this`served
      ensures r.Some? ==> forall t :: t in r.value <==> exists n :: n in shares && shares[n] == t
      ensures faults >= old(faults) && (faults == old(faults) ==> r.Some?)
      ensures QuotaIsStuck() ==> faults == old(faults)
    {
      var fault := Luck(ListShares);
      if fault != Works {
        return None;
      }
      var infos: seq<Share> := [];
      var left := shares.Keys;
      while left != {}
        invariant left <= shares.Keys
        invariant forall t :: t in infos <==> exists n :: n in shares && n !in left && shares[n] == t
        decreases |left|
      {
        var n :| n in left;
        left := left - {n};
        infos := infos + [shares[n]];
      }
      r := Some(infos);
    }

    method ShareGet(name: string) returns (r: Option<Share>)
      modifies this`faults, this`served
      ensures r.Some? ==> name in shares && r.value == shares[name]
      ensures faults >= old(faults) && (faults == old(faults) && name in shares ==> r.Some?)
      ensures QuotaIsStuck() ==> faults == old(faults)
    {
      var fault := Luck(GetShare);
      r := if fault == Works && name in shares then Some(shares[name]) else None;
    }

    /** A new share; a plain one gets the quota asked for, a clone may come without one. */
    method ShareCreate(name: string, quotaMB: int64, location: string) returns (r: Status)
      modifies this`shares, this`nextId, this`faults, this`served
      ensures Now() == old(Now()) || (name !in old(shares) && Now() == AddShare(old(Now()), name, quotaMB, location, 0))
      ensures r == Done ==> name in shares
      ensures r == AlreadyExists ==> name in old(shares)
      ensures faults >= old(faults) && (faults == old(faults) ==> r != Failed)
    {
      var fault := Luck(CreateShare);
      if fault == FailsBefore {
        return Failed;
      }
      if name in shares {
        return if fault == Works then AlreadyExists else Failed;
      }
      shares := shares[name := Share(name, nextId, quotaMB, location, 0)];
      nextId := nextId + 1;
      r := if fault == Works then Done else Failed;
    }

    /** The clone of a share, or of a snapshot of it: it has those contents, and the share's quota or none. */
    method ShareClone(name: string, source: string, snapshot: Option<nat>, location: string) returns (r: Status)
      modifies this`shares, this`nextId, this`faults, this`served
      ensures Now() == old(Now()) ||
              (name !in old(shares) && name in shares && ContentsOf(old(Now()), source, snapshot).Some? &&
               (shares[name].quotaMB == 0 || shares[name].quotaMB == old(shares)[source].quotaMB) &&
               Now() == AddShare(old(Now()), name, shares[name].quotaMB, location,
                                 ContentsOf(old(Now()), source, snapshot).value))
      ensures r == Done ==> name in shares
      ensures r == AlreadyExists ==> name in old(shares)
      ensures faults >= old(faults)
      ensures (faults == old(faults) && ContentsOf(old(Now()), source, snapshot).Some? ==> r != Failed)
      ensures QuotaIsStuck() ==> faults == old(faults)
      ensures QuotaIsStuck() && name !in old(shares) && ContentsOf(old(Now()), source, snapshot).Some? ==>
                Now() == AddShare(old(Now()), name, 0, location, ContentsOf(old(Now()), source, snapshot).value)
    {
      var fault := Luck(CloneShare);
      if fault == FailsBefore {
        return Failed;
      }
      if name in shares {
        return if fault == Works then AlreadyExists else Failed;
      }
      var data := ContentsOf(State(luns, targets, shares, snapshots, nextId), source, snapshot);
      if data.None? {
        return Failed;
      }
      var quota: int64 := if losesQuota(served) then 0 else shares[source].quotaMB;
      shares := shares[name := Share(name, nextId, quota, location, data.value)];
      nextId := nextId + 1;
      r := if fault == Works then Done else Failed;
    }

    method SetShareQuota(name: string, quotaMB: int64) returns (r: Status)
      requires name in shares
      modifies this`shares, this`faults, this`served
      ensures Now() == old(Now()) || Now() == SetShare(old(Now()), name, old(shares)[name].(quotaMB := quotaMB))
      ensures r == Done ==> Now() == SetShare(old(Now()), name, old(shares)[name].(quotaMB := quotaMB))
      ensures faults >= old(faults) && (faults == old(faults) ==> r == Done)
      ensures QuotaIsStuck() ==> r == Failed && Now() == old(Now())
    {
      var fault := Luck(SetQuota);
      if fault == FailsBefore {
        return Failed;
      }
      shares := shares[name := shares[name].(quotaMB := quotaMB)];
      r := if fault == Works then Done else Failed;
    }

    /** A read of something outside this model (DSM information, a storage location): it works or fails. */
    method Probe() returns (ok: bool)
      modifies this`faults, this`served
      ensures faults >= old(faults) && (faults == old(faults) ==> ok)
    {
      var fault := Luck(ReadOther);
      ok := fault == Works;
    }
  }
}
