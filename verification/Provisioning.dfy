/** Creating and expanding volumes: the service's six creation paths and the controller's checks around them. */
module Provisioning {
  import opened Wrappers
  import opened Capacity
  import opened Nas
  import opened Volumes
  import opened Retries
  import opened ShareRetries

  datatype Created = Made(volume: Volume) | Refused(error: Error)

  // ---------- iSCSI ----------

  /** Creates the target, unless it is there, and sets its sessions. */
  method EnsureTarget(dsm: Dsm, q: Request) returns (id: Option<nat>)
    requires WellFormed(dsm.Now())
    modifies dsm`targets, dsm`nextId, dsm`faults, dsm`served
    ensures SettledSteps(old(dsm.Now()), dsm.Now(), q)
    ensures id.Some? ==> Backing(q) in dsm.targets && dsm.targets[Backing(q)].id == id.value
    ensures id.Some? && q.multi ==> dsm.targets[Backing(q)].maxSessions == 0
    ensures dsm.nextId >= old(dsm.nextId)
    ensures dsm.faults >= old(dsm.faults) && (dsm.faults == old(dsm.faults) ==> id.Some?)
  {
    hide SettledSteps, WellFormed;
    var b := Backing(q);
    ghost var s0 := dsm.Now();
    NoSteps(s0, q);
    var status := dsm.TargetCreate(b);
    ghost var s1 := dsm.Now();
    if s1 != s0 {
      NewTargetSettled(s0, q);
    }
    WellFormedAfterSteps(s0, s1, q);
    if status == Failed {
      return None;
    }
    var targetInfo := dsm.TargetGet(b);
    if targetInfo.None? {
      return None;
    }
    var targetId := targetInfo.value.id;
    if q.multi {
      SessionsSettled(s1, q);
      NoSteps(s1, q);
      status := dsm.TargetSet(b, targetId, 0);
      SettledTransitive(s0, s1, dsm.Now(), q);
      if status != Done {
        return None;
      }
    }
    id := Some(targetId);
  }

  /** Gives the LUN its target; mapping the two is the last step. */
  method CreateMappingTarget(dsm: Dsm, q: Request, lunUuid: nat) returns (ok: bool)
    requires WellFormed(dsm.Now()) && Backing(q) in dsm.luns && dsm.luns[Backing(q)].uuid == lunUuid
    modifies dsm
    ensures SettledSteps(old(dsm.Now()), dsm.Now(), q) && dsm.luns == old(dsm.luns)
    ensures ok ==> IsMapped(dsm.Now(), q)
    ensures dsm.faults >= old(dsm.faults) && (dsm.faults == old(dsm.faults) ==> ok)
  {
    ghost var s0 := dsm.Now();
    assert lunUuid < s0.nextId;
    hide SettledSteps, WellFormed;
    var b := Backing(q);
    NoSteps(s0, q);
    var infoOk := dsm.Probe();
    if !infoOk {
      return false;
    }
    var targetId := EnsureTarget(dsm, q);
    ghost var s1 := dsm.Now();
    if targetId.None? {
      return false;
    }
    WellFormedAfterSteps(s0, s1, q);
    MappingSettled(s1, q, lunUuid);
    NoSteps(s1, q);
    var status := dsm.LunMapTarget(b, targetId.value, lunUuid);
    SettledTransitive(s0, s1, dsm.Now(), q);
    ok := status == Done;
  }

  lemma WellFormedAfterSteps(s: State, t: State, q: Request)
    requires Steps(s, t, q) || SettledSteps(s, t, q)
    ensures WellFormed(t)
  {
  }

  /** The common end of the three iSCSI paths: read the LUN back by name and give it its target. */
  method FinishLun(dsm: Dsm, q: Request) returns (r: Created)
    requires WellFormed(dsm.Now()) && Backing(q) in dsm.luns
    modifies dsm
    ensures SettledSteps(old(dsm.Now()), dsm.Now(), q)
    ensures r.Made? ==> IsMapped(dsm.Now(), q) && r.volume == LunVolume(dsm.luns[Backing(q)])
    ensures dsm.faults >= old(dsm.faults) && (dsm.faults == old(dsm.faults) ==> r.Made?)
    ensures r.Refused? ==> r.error == Internal
  {
    hide SettledSteps, WellFormed;
    NoSteps(dsm.Now(), q);
    var lunInfo := dsm.LunGet(Backing(q));
    if lunInfo.None? {
      return Refused(Internal);
    }
    var ok := CreateMappingTarget(dsm, q, lunInfo.value.uuid);
    if !ok {
      return Refused(Internal);
    }
    r := Made(LunVolume(lunInfo.value));
  }

  /** A new, empty LUN. */
  method CreateVolumeByDsm(dsm: Dsm, q: Request) returns (r: Created)
    requires WellFormed(dsm.Now()) && q.source.Blank?
    modifies dsm
    ensures Steps(old(dsm.Now()), dsm.Now(), q)
    ensures r.Made? ==> IsMapped(dsm.Now(), q) && r.volume == LunVolume(dsm.luns[Backing(q)])
    ensures r.Made? && Backing(q) !in old(dsm.luns) ==> r.volume.sizeInBytes == q.size
    ensures dsm.faults >= old(dsm.faults) && (dsm.faults == old(dsm.faults) && q.size >= 0 ==> r.Made?)
  {
    hide Steps, SettledSteps, WellFormed, Progress, Tidy;
    ghost var s0 := dsm.Now();
    NoSteps(s0, q);
    var located := dsm.Probe();
    if !located {
      return Refused(Internal);
    }
    var status := dsm.LunCreate(Backing(q), q.size, q.location);
    ghost var s1 := dsm.Now();
    if s1 != s0 {
      NewLunSteps(s0, q, q.size, false, q.location, 0);
    }
    WellFormedAfterSteps(s0, s1, q);
    if status == Failed {
      return Refused(Internal);
    }
    r := FinishLun(dsm, q);
    BlankIsSettled(s0, s1, q);
    StepsThenSettled(s0, s1, dsm.Now(), q);
    SameSize(s1, dsm.Now(), q);
  }

  lemma BlankIsSettled(s: State, t: State, q: Request)
    requires Steps(s, t, q) && q.source.Blank? && Backing(q) in t.luns
    ensures Tidy(s, q) ==> Settled(t, q)
  {
    if Tidy(s, q) {
      TidyAfter(s, t, q);
    }
    hide WellFormed, Grown;
  }

  lemma SameSize(s: State, t: State, q: Request)
    requires SettledSteps(s, t, q) && Backing(q) in s.luns
    ensures Backing(q) in t.luns && t.luns[Backing(q)].size == s.luns[Backing(q)].size
  {
    hide WellFormed, Progress, Tidy;
  }

  /** Polls, at least once, until the clone is seen unlocked, a read fails, or time is up. */
  method WaitCloneFinished(dsm: Dsm, q: Request) returns (ok: bool)
    requires WellFormed(dsm.Now()) && Backing(q) in dsm.luns
    modifies dsm
    ensures Steps(old(dsm.Now()), dsm.Now(), q)
    ensures Backing(q) in dsm.luns
    ensures ok ==> !dsm.luns[Backing(q)].locked
    ensures dsm.faults >= old(dsm.faults) && (dsm.faults == old(dsm.faults) && IsCopied(old(dsm.Now()), q) ==> ok)
  {
    hide Steps, WellFormed, SettledSteps;
    ghost var s0 := dsm.Now();
    NoSteps(s0, q);
    var polls: int := *;
    if polls < 1 {
      polls := 1;
    }
    ghost var first := true;
    while polls > 0
      invariant Steps(s0, dsm.Now(), q) && WellFormed(dsm.Now())
      invariant Backing(q) in dsm.luns && dsm.faults >= old(dsm.faults)
      invariant if first then polls > 0 && dsm.Now() == s0 && dsm.faults == old(dsm.faults) else !IsCopied(s0, q)
    {
      var lunInfo := dsm.LunGet(Backing(q));
      if lunInfo.None? {
        return false;
      }
      if !lunInfo.value.locked {
        return true;
      }
      ghost var s1 := dsm.Now();
      NoSteps(s1, q);
      UnlockSteps(s1, q);
      dsm.Pause(Backing(q));
      StepsTransitive(s0, s1, dsm.Now(), q);
      WellFormedAfterSteps(s0, dsm.Now(), q);
      polls := polls - 1;
      first := false;
    }
    ok := false;
  }

  /** The common end of the two clone paths: wait for the copy, then go on as for a new LUN. */
  method FinishClone(dsm: Dsm, q: Request, cloned: Status) returns (r: Created)
    requires WellFormed(dsm.Now()) && (cloned != Failed ==> Backing(q) in dsm.luns)
    modifies dsm
    ensures Steps(old(dsm.Now()), dsm.Now(), q)
    ensures r.Made? ==> IsMapped(dsm.Now(), q) && r.volume == LunVolume(dsm.luns[Backing(q)])
    ensures dsm.faults >= old(dsm.faults)
    ensures dsm.faults == old(dsm.faults) && cloned != Failed && IsCopied(old(dsm.Now()), q) ==> r.Made?
    ensures r.Refused? ==> r.error == Internal
  {
    hide Steps, SettledSteps, WellFormed, Progress, Tidy;
    ghost var s0 := dsm.Now();
    NoSteps(s0, q);
    if cloned == Failed {
      return Refused(Internal);
    }
    var finished := WaitCloneFinished(dsm, q);
    ghost var s1 := dsm.Now();
    WellFormedAfterSteps(s0, s1, q);
    if !finished {
      return Refused(Internal);
    }
    r := FinishLun(dsm, q);
    UnlockedIsSettled(s0, s1, q);
    StepsThenSettled(s0, s1, dsm.Now(), q);
  }

  lemma UnlockedIsSettled(s: State, t: State, q: Request)
    requires Steps(s, t, q) && Backing(q) in t.luns && !t.luns[Backing(q)].locked
    ensures Tidy(s, q) ==> Settled(t, q)
  {
    if Tidy(s, q) {
      TidyAfter(s, t, q);
    }
    hide WellFormed, Grown;
  }

  /** The LUN of a clone will be unlocked at the first look: it is there and its copying is done, or copying
      takes no time. */
  ghost predicate ReadyToCopy(s: State, q: Request, copiesAtOnce: bool) {
    IsCopied(s, q) || (Backing(q) !in s.luns && copiesAtOnce)
  }

  /** The clone of a snapshot; the requested size, if there is one, must be the snapshot's. */
  method CreateVolumeBySnapshot(dsm: Dsm, q: Request, srcSnapshot: Snapshot) returns (r: Created)
    requires Sound(dsm.Now()) && srcSnapshot.uuid in dsm.snapshots && dsm.snapshots[srcSnapshot.uuid] == srcSnapshot
    requires q.source == FromSnapshot(srcSnapshot.uuid)
    modifies dsm
    ensures Steps(old(dsm.Now()), dsm.Now(), q)
    ensures r.Made? ==> IsMapped(dsm.Now(), q) && r.volume == LunVolume(dsm.luns[Backing(q)])
    ensures q.size != 0 && q.size != srcSnapshot.size ==> r == Refused(OutOfRange) && dsm.Now() == old(dsm.Now())
    ensures dsm.faults >= old(dsm.faults)
    ensures dsm.faults == old(dsm.faults) && ReadyToCopy(old(dsm.Now()), q, dsm.CopiesAtOnce()) &&
            (q.size == 0 || q.size == srcSnapshot.size) ==>
              r.Made?
  {
    hide Steps, SettledSteps, WellFormed, Progress, Tidy;
    ghost var s0 := dsm.Now();
    NoSteps(s0, q);
    if q.size != 0 && q.size != srcSnapshot.size {
      return Refused(OutOfRange);
    }
    var status := dsm.SnapshotClone(Backing(q), srcSnapshot.uuid, srcSnapshot.rootPath);
    ghost var s1 := dsm.Now();
    if s1 != s0 {
      NewLunSteps(s0, q, srcSnapshot.size, s1.luns[Backing(q)].locked, srcSnapshot.rootPath, srcSnapshot.data);
    }
    WellFormedAfterSteps(s0, s1, q);
    r := FinishClone(dsm, q, status);
    StepsTransitive(s0, s1, dsm.Now(), q);
  }

  /** What a clone is made from is the LUN that was looked up; the empty record stands for no LUN. */
  lemma SourceIsThere(s: State, srcLun: Lun, n: string)
    requires WellFormed(s) && (srcLun == ZERO_LUN || (srcLun.name in s.luns && s.luns[srcLun.name] == srcLun))
    requires n in s.luns && s.luns[n].uuid == srcLun.uuid
    ensures s.luns[n] == srcLun != ZERO_LUN
  {
  }

  /** The clone of a LUN; the requested size, if there is one, must be the source's. */
  method CreateVolumeByVolume(dsm: Dsm, q: Request, srcLun: Lun) returns (r: Created)
    requires WellFormed(dsm.Now()) && !q.source.Blank?
    requires srcLun == ZERO_LUN ||
             (srcLun.name in dsm.luns && dsm.luns[srcLun.name] == srcLun && q.source == FromVolume(srcLun.uuid))
    modifies dsm
    ensures Steps(old(dsm.Now()), dsm.Now(), q)
    ensures r.Made? ==> IsMapped(dsm.Now(), q) && r.volume == LunVolume(dsm.luns[Backing(q)])
    ensures q.size != 0 && q.size != ToInt64(srcLun.size) ==> r == Refused(OutOfRange) && dsm.Now() == old(dsm.Now())
    ensures dsm.faults >= old(dsm.faults)
    ensures dsm.faults == old(dsm.faults) && ReadyToCopy(old(dsm.Now()), q, dsm.CopiesAtOnce()) && srcLun != ZERO_LUN &&
            (q.size == 0 || q.size == ToInt64(srcLun.size)) ==>
              r.Made?
    ensures r.Refused? ==> r.error != NotFound
  {
    hide Steps, SettledSteps, WellFormed, Progress, Tidy;
    ghost var s0 := dsm.Now();
    NoSteps(s0, q);
    if q.size != 0 && q.size != ToInt64(srcLun.size) {
      return Refused(OutOfRange);
    }
    var location := if q.location == "" then srcLun.location else q.location;
    var status := dsm.LunClone(Backing(q), srcLun.uuid, location);
    ghost var s1 := dsm.Now();
    if s1 != s0 {
      var b := Backing(q);
      var n :| n in s0.luns && s0.luns[n].uuid == srcLun.uuid &&
               s1 == AddLun(s0, b, s0.luns[n].size, s1.luns[b].locked, location, s0.luns[n].data);
      SourceIsThere(s0, srcLun, n);
      NewLunSteps(s0, q, srcLun.size, s1.luns[b].locked, location, srcLun.data);
    }
    WellFormedAfterSteps(s0, s1, q);
    r := FinishClone(dsm, q, status);
    StepsTransitive(s0, s1, dsm.Now(), q);
  }

  // ---------- SMB ----------

  method CreateSMBVolumeByDsm(dsm: Dsm, q: Request) returns (r: Created)
    requires WellFormed(dsm.Now()) && q.source.Blank?
    modifies dsm
    ensures ShareProgress(old(dsm.Now()), dsm.Now(), q)
    ensures r.Made? ==> ShareName(q) in dsm.shares && r.volume == ShareVolume(dsm.shares[ShareName(q)])
    ensures dsm.faults >= old(dsm.faults) && (dsm.faults == old(dsm.faults) ==> r.Made?)
    ensures r.Made? && ShareName(q) !in old(dsm.shares) ==> r.volume.share.quotaMB == BytesToMBCeil(q.size)
  {
    hide ShareProgress, WellFormed;
    ghost var s0 := dsm.Now();
    var n := ShareName(q);
    ShareProgressReflexive(s0, q);
    var located := dsm.Probe();
    if !located {
      return Refused(Internal);
    }
    var status := dsm.ShareCreate(n, BytesToMBCeil(q.size), q.location);
    if dsm.Now() != s0 {
      NewShareProgress(s0, q, BytesToMBCeil(q.size), q.location, 0);
    }
    if status == Failed {
      return Refused(Internal);
    }
    var shareInfo := dsm.ShareGet(n);
    if shareInfo.None? {
      return Refused(Internal);
    }
    r := Made(ShareVolume(shareInfo.value));
  }

  /** The common end of the two share clones: a share that came without a quota gets the requested one. */
  method FinishShare(dsm: Dsm, q: Request) returns (r: Option<Share>)
    requires WellFormed(dsm.Now())
    modifies dsm
    ensures ShareProgress(old(dsm.Now()), dsm.Now(), q)
    ensures r.Some? ==> ShareName(q) in dsm.shares && r.value == dsm.shares[ShareName(q)]
    ensures dsm.faults >= old(dsm.faults)
    ensures r.Some? ==>
              ShareName(q) in old(dsm.shares) && r.value.quotaMB == FinalQuota(old(dsm.shares)[ShareName(q)], q)
    ensures dsm.faults == old(dsm.faults) && ShareName(q) in old(dsm.shares) ==> r.Some?
    ensures dsm.QuotaIsStuck() && ShareName(q) in old(dsm.shares) && old(dsm.shares)[ShareName(q)].quotaMB == 0 ==>
              r.None? && dsm.Now() == old(dsm.Now())
  {
    hide ShareProgress, WellFormed;
    ghost var s0 := dsm.Now();
    var n := ShareName(q);
    ShareProgressReflexive(s0, q);
    var shareInfo := dsm.ShareGet(n);
    if shareInfo.None? {
      return None;
    }
    var share := shareInfo.value;
    var newSizeInMB := BytesToMBCeil(q.size);
    if share.quotaMB == 0 {
      QuotaProgress(s0, q);
      var status := dsm.SetShareQuota(n, newSizeInMB);
      if status != Done {
        return None;
      }
      share := share.(quotaMB := newSizeInMB);
    }
    r := Some(share);
  }

  function FinalQuota(share: Share, q: Request): int64 {
    if share.quotaMB == 0 then BytesToMBCeil(q.size) else share.quotaMB
  }

  predicate FitsQuota(share: Share, q: Request) {
    share.quotaMB == BytesToMBCeil(q.size)
  }

  lemma CopyComesFromVolume(s: State, q: Request, m: string, share: Share)
    requires m in s.shares && q.source == FromVolume(s.shares[m].uuid) && share.data == s.shares[m].data
    requires CopyOf(share, s.shares[m].quotaMB, s.shares[m].location, q)
    requires q.size != 0 ==> s.shares[m].quotaMB == BytesToMBCeil(q.size)
    ensures ComesFrom(s, q, share)
  {
  }

  /** There is a source of the size asked for, and no share yet. */
  predicate CanCopy(s: State, srcShare: Share, q: Request) {
    srcShare != ZERO_SHARE && FitsQuota(srcShare, q) && ShareName(q) !in s.shares
  }

  /** The clone of a share; the requested size, if there is one, must round to the source's quota. */
  method CreateSMBVolumeByVolume(dsm: Dsm, q: Request, srcShare: Share) returns (r: Created)
    requires WellFormed(dsm.Now())
    requires srcShare == ZERO_SHARE ||
             (srcShare.name in dsm.shares && dsm.shares[srcShare.name] == srcShare &&
              q.source == FromVolume(srcShare.uuid))
    modifies dsm
    ensures ShareProgress(old(dsm.Now()), dsm.Now(), q)
    ensures r.Made? ==> ShareName(q) in dsm.shares && r.volume == ShareVolume(dsm.shares[ShareName(q)])
    ensures q.size != 0 && BytesToMBCeil(q.size) != srcShare.quotaMB ==>
              r == Refused(OutOfRange) && dsm.Now() == old(dsm.Now())
    ensures dsm.faults >= old(dsm.faults)
    ensures dsm.faults == old(dsm.faults) && srcShare != ZERO_SHARE && (q.size == 0 || FitsQuota(srcShare, q)) ==>
              r.Made?
    ensures r.Made? && q.size != 0 && ShareName(q) !in old(dsm.shares) ==>
              r.volume.share.quotaMB == BytesToMBCeil(q.size)
    ensures dsm.QuotaIsStuck() && CanCopy(old(dsm.Now()), srcShare, q) ==>
              r == Refused(Internal) &&
              dsm.Now() == AddShare(old(dsm.Now()), ShareName(q), 0, srcShare.location, srcShare.data)
    ensures r.Refused? ==> r.error != NotFound
  {
    ghost var s0 := dsm.Now();
    assert "" !in s0.shares;
    hide ShareProgress, WellFormed, ComesFrom, ShareName, BytesToMBCeil;
    var n := ShareName(q);
    ShareProgressReflexive(s0, q);
    if q.size != 0 && BytesToMBCeil(q.size) != srcShare.quotaMB {
      return Refused(OutOfRange);
    }
    var status := dsm.ShareClone(n, srcShare.name, None, srcShare.location);
    ghost var s1 := dsm.Now();
    if s1 != s0 {
      CopyComesFromVolume(s0, q, srcShare.name, s1.shares[n]);
      NewShareProgress(s0, q, s1.shares[n].quotaMB, srcShare.location, srcShare.data);
    }
    if status == Failed {
      return Refused(Internal);
    }
    WellFormedAfter(s0, s1, q);
    var share := FinishShare(dsm, q);
    ShareProgressTransitive(s0, s1, dsm.Now(), q);
    r := if share.Some? then Made(ShareVolume(share.value)) else Refused(Internal);
  }

  /** The clone of a share's snapshot; in the end the clone must have the requested size, rounded, as its quota. */
  method CreateSMBVolumeBySnapshot(dsm: Dsm, q: Request, srcSnapshot: Snapshot) returns (r: Created)
    requires WellFormed(dsm.Now()) && srcSnapshot.uuid in dsm.snapshots
    requires dsm.snapshots[srcSnapshot.uuid] == srcSnapshot
    requires q.source == FromSnapshot(srcSnapshot.uuid)
    modifies dsm
    ensures ShareProgress(old(dsm.Now()), dsm.Now(), q)
    ensures r.Made? ==> ShareName(q) in dsm.shares && r.volume == ShareVolume(dsm.shares[ShareName(q)])
    ensures r.Made? ==> r.volume.share.quotaMB == BytesToMBCeil(q.size)
    ensures dsm.faults >= old(dsm.faults)
    ensures dsm.faults == old(dsm.faults) && srcSnapshot.parentName in old(dsm.shares) ==>
              if ShareName(q) in old(dsm.shares) then r.Made? <==> Suits(old(dsm.shares)[ShareName(q)], q)
              else Suits(old(dsm.shares)[srcSnapshot.parentName], q) ==> r.Made?
    ensures dsm.faults == old(dsm.faults) && srcSnapshot.parentName in old(dsm.shares) && r.Refused? ==>
              r == Refused(OutOfRange)
  {
    hide ShareProgress, WellFormed;
    ghost var s0 := dsm.Now();
    var n := ShareName(q);
    ShareProgressReflexive(s0, q);
    var srcShare := dsm.ShareGet(srcSnapshot.parentName);
    if srcShare.None? {
      return Refused(Internal);
    }
    var status := dsm.ShareClone(n, srcSnapshot.parentName, Some(srcSnapshot.uuid), srcSnapshot.rootPath);
    ghost var s1 := dsm.Now();
    if s1 != s0 {
      NewShareProgress(s0, q, s1.shares[n].quotaMB, srcSnapshot.rootPath, srcSnapshot.data);
    }
    if status == Failed {
      return Refused(Internal);
    }
    WellFormedAfter(s0, s1, q);
    var share := FinishShare(dsm, q);
    ShareProgressTransitive(s0, s1, dsm.Now(), q);
    if share.None? {
      return Refused(Internal);
    }
    if BytesToMBCeil(q.size) != share.value.quotaMB {
      return Refused(OutOfRange);
    }
    r := Made(ShareVolume(share.value));
  }

  // ---------- The service: choosing the path ----------

  /** Every volume with this id is of the other protocol than the request. */
  ghost predicate SourceOfOtherProtocol(s: State, q: Request) {
    q.source.FromVolume? && forall v :: Visible(s, v) && v.id == q.source.id ==> v.protocol != q.protocol
  }

  /** The source snapshot is not there. */
  ghost predicate LacksSnapshot(s: State, q: Request) {
    q.source.FromSnapshot? && q.source.id !in s.snapshots
  }

  /** The source snapshot is of the other protocol, or at another place than the one asked for. */
  ghost predicate MismatchesSnapshot(s: State, q: Request) {
    && q.source.FromSnapshot? && q.source.id in s.snapshots
    && (q.protocol != s.snapshots[q.source.id].protocol ||
        (q.location != "" && q.location != s.snapshots[q.source.id].rootPath))
  }

  ghost predicate RefusesSnapshot(s: State, q: Request) {
    LacksSnapshot(s, q) || MismatchesSnapshot(s, q)
  }

  /** The source volume is there, and of the other protocol. */
  ghost predicate CrossClone(s: State, q: Request) {
    SourceOfOtherProtocol(s, q) && exists v :: Visible(s, v) && v.id == q.source.id
  }

  /** The source of an SMB request is this share, of the size asked for. */
  ghost predicate ClonesShare(s: State, q: Request, m: string) {
    && q.protocol == Smb && m in s.shares && PREFIX <= m && q.source == FromVolume(s.shares[m].uuid)
    && s.shares[m].quotaMB == BytesToMBCeil(q.size)
  }

  /** Visible volumes are told apart by their ids. */
  lemma VisibleUnique(s: State, v: Volume, w: Volume)
    requires WellFormed(s) && Visible(s, v) && Visible(s, w) && v.id == w.id
    ensures v == w
  {
  }

  lemma SourceIsVisible(s: State, q: Request, m: string, v: Volume)
    requires WellFormed(s) && ClonesShare(s, q, m)
    ensures Visible(s, ShareVolume(s.shares[m]))
    ensures Visible(s, v) && v.id == q.source.id ==> v == ShareVolume(s.shares[m])
  {
    assert VisibleSmb(s, ShareVolume(s.shares[m]));
    if Visible(s, v) && v.id == q.source.id {
      VisibleUnique(s, v, ShareVolume(s.shares[m]));
    }
  }

  lemma FitSourceIsVisible(s: State, q: Request)
    requires LunSourceFits(s, q) && q.source.FromVolume?
    ensures exists v :: Visible(s, v) && v.id == q.source.id
  {
    var v :| VisibleIscsi(s, v) && v.id == q.source.id && v.sizeInBytes == q.size;
    assert Visible(s, v);
  }

  /** The visible volume with the id of a fitting LUN is that LUN. */
  lemma OnlyFitSource(s: State, q: Request, w: Volume)
    requires WellFormed(s) && q.source.FromVolume? && Visible(s, w) && w.id == q.source.id
    ensures LunSourceFits(s, q) ==> ToInt64(w.lun.size) == q.size && w.lun != ZERO_LUN
  {
    if LunSourceFits(s, q) {
      var v :| VisibleIscsi(s, v) && v.id == q.source.id && v.sizeInBytes == q.size;
      assert Visible(s, v);
      VisibleUnique(s, v, w);
    }
  }

  lemma ClonedShareIsVisible(s: State, q: Request)
    requires WellFormed(s)
    ensures forall m :: ClonesShare(s, q, m) ==>
              && s.shares[m] != ZERO_SHARE
              && Visible(s, ShareVolume(s.shares[m])) && ShareVolume(s.shares[m]).id == q.source.id
    ensures q.protocol == Smb && q.source.FromVolume? && SourceFits(s, q) ==> exists m :: ClonesShare(s, q, m)
  {
    forall m | ClonesShare(s, q, m)
      ensures Visible(s, ShareVolume(s.shares[m]))
    {
      SourceIsVisible(s, q, m, ShareVolume(s.shares[m]));
    }
    if q.protocol == Smb && q.source.FromVolume? && SourceFits(s, q) {
      var m :| m in s.shares && PREFIX <= m && s.shares[m].uuid == q.source.id &&
               s.shares[m].quotaMB == BytesToMBCeil(q.size);
      assert ClonesShare(s, q, m);
    }
  }

  /** The request is for a share that is not there yet, and its source fits. */
  ghost predicate MakesShare(s: State, q: Request) {
    q.protocol == Smb && ShareName(q) !in s.shares && SourceFits(s, q)
  }

  /** The second of the three ways: find the snapshot, check place and protocol, and clone it. */
  method CreateFromSnapshot(dsm: Dsm, q: Request) returns (r: Created)
    requires Sound(dsm.Now()) && q.source.FromSnapshot?
    modifies dsm
    ensures q.protocol == Iscsi ==> Steps(old(dsm.Now()), dsm.Now(), q)
    ensures q.protocol == Smb ==> ShareProgress(old(dsm.Now()), dsm.Now(), q)
    ensures r.Made? && q.protocol == Iscsi ==> IsMapped(dsm.Now(), q) && r.volume == LunVolume(dsm.luns[Backing(q)])
    ensures r.Made? && q.protocol == Smb ==>
              ShareName(q) in dsm.shares && r.volume == ShareVolume(dsm.shares[ShareName(q)])
    ensures dsm.faults >= old(dsm.faults)
    ensures dsm.faults == old(dsm.faults) && MakesShare(old(dsm.Now()), q) ==>
              r.Made? && r.volume.share.quotaMB == BytesToMBCeil(q.size)
    ensures dsm.faults == old(dsm.faults) && q.protocol == Iscsi &&
            LunSourceFits(old(dsm.Now()), q) && ReadyToCopy(old(dsm.Now()), q, dsm.CopiesAtOnce()) ==>
              r.Made?
    ensures LacksSnapshot(old(dsm.Now()), q) ==> dsm.Now() == old(dsm.Now()) && r == Refused(NotFound)
    ensures MismatchesSnapshot(old(dsm.Now()), q) ==>
              dsm.Now() == old(dsm.Now()) && (r == Refused(BadArgument) || r == Refused(NotFound)) &&
              (dsm.faults == old(dsm.faults) ==> r == Refused(BadArgument))
  {
    hide Steps, ShareProgress, WellFormed, BytesToMBCeil, ShareName, IsMapped, ReadyToCopy;
    NoSteps(dsm.Now(), q);
    ShareProgressReflexive(dsm.Now(), q);
    var id := q.source.id;
    var found := dsm.Probe();
    if !found || id !in dsm.snapshots {
      return Refused(NotFound);
    }
    var snapshot := dsm.snapshots[id];
    if q.location != "" && q.location != snapshot.rootPath {
      return Refused(BadArgument);
    }
    if q.protocol != snapshot.protocol {
      return Refused(BadArgument);
    }
    if q.protocol == Iscsi {
      r := CreateVolumeBySnapshot(dsm, q, snapshot);
    } else {
      r := CreateSMBVolumeBySnapshot(dsm, q, snapshot);
    }
  }

  /** The service's CreateVolume. */
  method CreateVolume(dsm: Dsm, q: Request) returns (r: Created)
    requires Sound(dsm.Now())
    modifies dsm
    ensures q.protocol == Iscsi ==> Steps(old(dsm.Now()), dsm.Now(), q)
    ensures q.protocol == Smb ==> ShareProgress(old(dsm.Now()), dsm.Now(), q)
    ensures r.Made? && q.protocol == Iscsi ==> IsMapped(dsm.Now(), q) && r.volume == LunVolume(dsm.luns[Backing(q)])
    ensures r.Made? && q.protocol == Smb ==>
              ShareName(q) in dsm.shares && r.volume == ShareVolume(dsm.shares[ShareName(q)])
    ensures dsm.faults == old(dsm.faults) && q.size > 0 && MakesShare(old(dsm.Now()), q) ==>
              r.Made? && r.volume.share.quotaMB == BytesToMBCeil(q.size)
    ensures dsm.faults == old(dsm.faults) && q.protocol == Iscsi && !q.source.Blank? &&
            LunSourceFits(old(dsm.Now()), q) && ReadyToCopy(old(dsm.Now()), q, dsm.CopiesAtOnce()) ==>
              r.Made?
    ensures LacksSnapshot(old(dsm.Now()), q) ==> dsm.Now() == old(dsm.Now()) && r == Refused(NotFound)
    ensures MismatchesSnapshot(old(dsm.Now()), q) ==>
              dsm.Now() == old(dsm.Now()) && (r == Refused(BadArgument) || r == Refused(NotFound)) &&
              (dsm.faults == old(dsm.faults) ==> r == Refused(BadArgument))
    ensures dsm.QuotaIsStuck() && ShareName(q) !in old(dsm.shares) && q.source.FromVolume? ==>
              forall m :: ClonesShare(old(dsm.Now()), q, m) ==>
                r == Refused(Internal) &&
                StuckAfter(old(dsm.Now()), dsm.Now(), q, m)
    ensures SourceOfOtherProtocol(old(dsm.Now()), q) && q.size > 0 ==>
              dsm.Now() == old(dsm.Now()) && (r == Refused(OutOfRange) || r == Refused(NotFound))
    ensures dsm.faults >= old(dsm.faults)
    ensures dsm.faults == old(dsm.faults) && q.source.Blank? && q.size >= 0 ==> r.Made?
    ensures dsm.faults == old(dsm.faults) && q.source.FromVolume? && r == Refused(NotFound) ==>
              forall v :: Visible(old(dsm.Now()), v) ==> v.id != q.source.id
  {
    hide Steps, SettledSteps, ShareProgress, WellFormed, Visible, BytesToMBCeil, ShareName, IsMapped,
      VisibleIscsi, ReadyToCopy;
    ghost var s0 := dsm.Now();
    NoSteps(s0, q);
    ShareProgressReflexive(s0, q);
    match q.source
    case FromVolume(id) =>
      ClonedShareIsVisible(s0, q);
      if LunSourceFits(s0, q) {
        FitSourceIsVisible(s0, q);
      }
      var k8sVolume := GetVolume(dsm, id);
      if k8sVolume.None? {
        return Refused(NotFound);
      }
      VisibleParts(s0, k8sVolume.value);
      forall m | ClonesShare(s0, q, m)
        ensures k8sVolume.value == ShareVolume(s0.shares[m])
      {
        SourceIsVisible(s0, q, m, k8sVolume.value);
      }
      OnlyFitSource(s0, q, k8sVolume.value);
      if q.protocol == Iscsi {
        r := CreateVolumeByVolume(dsm, q, k8sVolume.value.lun);
      } else {
        if q.size > 0 {
          CeilNotZero(q.size);
        }
        r := CreateSMBVolumeByVolume(dsm, q, k8sVolume.value.share);
      }
    case FromSnapshot(id) =>
      r := CreateFromSnapshot(dsm, q);
    case Blank =>
      if q.protocol == Iscsi {
        r := CreateVolumeByDsm(dsm, q);
      } else {
        r := CreateSMBVolumeByDsm(dsm, q);
      }
  }

  /** A visible record carries the LUN or share it stands for, and the zero value for the other. */
  lemma VisibleParts(s: State, v: Volume)
    requires WellFormed(s) && Visible(s, v)
    ensures v.protocol == Iscsi ==>
              v.lun.name in s.luns && s.luns[v.lun.name] == v.lun && v.share == ZERO_SHARE && v == LunVolume(v.lun)
    ensures v.protocol == Smb ==>
              && v.share.name in s.shares && s.shares[v.share.name] == v.share
              && v.lun == ZERO_LUN && v == ShareVolume(v.share)
  {
  }

  // ---------- Expansion ----------

  ghost predicate NeverLowered(s: State, t: State) {
    && (forall n :: n in s.luns ==>
          n in t.luns && t.luns[n].uuid == s.luns[n].uuid && s.luns[n].size <= t.luns[n].size)
    && (forall n :: n in s.shares ==>
          n in t.shares && t.shares[n].uuid == s.shares[n].uuid && s.shares[n].quotaMB <= t.shares[n].quotaMB)
  }

  /** Only the volume with this id may change, and only in size. */
  ghost predicate OnlyResized(s: State, t: State, id: nat) {
    && t.targets == s.targets && t.snapshots == s.snapshots
    && t.luns.Keys == s.luns.Keys && t.shares.Keys == s.shares.Keys
    && (forall n :: n in s.luns ==>
          t.luns[n].(size := 0) == s.luns[n].(size := 0) && (s.luns[n].uuid != id ==> t.luns[n] == s.luns[n]))
    && (forall n :: n in s.shares ==>
          t.shares[n].(quotaMB := 0) == s.shares[n].(quotaMB := 0) &&
          (s.shares[n].uuid != id ==> t.shares[n] == s.shares[n]))
  }

  lemma NotResized(s: State, id: nat)
    ensures OnlyResized(s, s, id) && NeverLowered(s, s)
  {
  }

  lemma LunResized(s: State, n: string, newSize: uint64)
    requires WellFormed(s) && n in s.luns
    ensures var t := SetLun(s, n, s.luns[n].(size := newSize));
            OnlyResized(s, t, s.luns[n].uuid) && (NeverLowered(s, t) <==> s.luns[n].size <= newSize)
  {
    var t := SetLun(s, n, s.luns[n].(size := newSize));
    assert n in s.luns && t.luns[n].size == newSize;
  }

  lemma ShareResized(s: State, n: string, quotaMB: int64)
    requires WellFormed(s) && n in s.shares
    ensures var t := SetShare(s, n, s.shares[n].(quotaMB := quotaMB));
            OnlyResized(s, t, s.shares[n].uuid) && (NeverLowered(s, t) <==> s.shares[n].quotaMB <= quotaMB)
  {
    var t := SetShare(s, n, s.shares[n].(quotaMB := quotaMB));
    assert n in s.shares && t.shares[n].quotaMB == quotaMB;
  }

  lemma UuidIsUnique(s: State, n: string, m: string)
    requires WellFormed(s) && n in s.luns && m in s.luns && s.luns[n].uuid == s.luns[m].uuid
    ensures n == m
  {
  }

  /** The volume's size and the new one are in the range in which neither a byte count nor the rounding wraps around. */
  predicate InRange(v: Volume, newSize: int64) {
    if v.protocol == Iscsi then v.lun.size < TWO_63 else v.share.quotaMB < QUOTA_LIMIT && newSize <= TWO_63 - UNIT_MB
  }

  /** An expansion to a size that is not below the reported one keeps the LUN's size or the share's quota from
      sinking exactly in that range. */
  lemma ExpansionRaises(v: Volume, newSize: int64)
    requires 0 <= newSize && v.sizeInBytes <= newSize
    requires v == LunVolume(v.lun) || v == ShareVolume(v.share)
    ensures v.protocol == Iscsi ==> (v.lun.size <= ToUint64(newSize) <==> InRange(v, newSize))
    ensures v.protocol == Smb && v.share.quotaMB >= 0 ==>
              (v.share.quotaMB <= BytesToMBCeil(newSize) <==> InRange(v, newSize))
    ensures v.protocol == Smb && InRange(v, newSize) ==> v.share.quotaMB <= BytesToMBCeil(newSize)
  {
    if v.protocol == Iscsi {
      ExpandRaisesLun(v.lun.size, newSize);
    } else {
      ExpandRaisesQuota(v.share.quotaMB, newSize);
    }
  }

  /** There is a visible volume with this id of at most this size. */
  ghost predicate CanExpand(s: State, volId: nat, newSize: int64) {
    exists v :: Visible(s, v) && v.id == volId && v.sizeInBytes <= newSize
  }

  lemma CanExpandFound(s: State, v: Volume, newSize: int64)
    requires WellFormed(s) && Visible(s, v)
    ensures CanExpand(s, v.id, newSize) <==> v.sizeInBytes <= newSize
  {
    hide Visible, WellFormed;
    forall w | Visible(s, w) && w.id == v.id
      ensures w == v
    {
      VisibleUnique(s, v, w);
    }
  }

  /** A success reports exactly the new size for a LUN and its least multiple of 1 MiB for a share, and that is
      what the NAS then holds; whatever happens, only this volume changes. When no call fails, it succeeds
      exactly if a visible volume has this id and at most this size, and changes nothing otherwise. Sizes and
      quotas are never lowered as long as the volume is in range, and a success lowers the volume's own if it is
      not. */
  method ExpandVolume(dsm: Dsm, volId: nat, newSize: int64) returns (r: Created)
    requires WellFormed(dsm.Now())
    modifies dsm
    ensures OnlyResized(old(dsm.Now()), dsm.Now(), volId)
    ensures newSize >= 0 && (forall v :: Visible(old(dsm.Now()), v) && v.id == volId ==> InRange(v, newSize)) ==>
              NeverLowered(old(dsm.Now()), dsm.Now())
    ensures r.Made? && newSize >= 0 && (r.volume.protocol == Iscsi || r.volume.share.quotaMB >= 0) ==>
              (NeverLowered(old(dsm.Now()), dsm.Now()) <==> InRange(r.volume, newSize))
    ensures dsm.faults >= old(dsm.faults)
    ensures dsm.faults == old(dsm.faults) ==> (r.Made? <==> CanExpand(old(dsm.Now()), volId, newSize))
    ensures !CanExpand(old(dsm.Now()), volId, newSize) ==> r == Refused(BadArgument) && dsm.Now() == old(dsm.Now())
    ensures r.Made? ==> r.volume.id == volId
    ensures r.Made? && r.volume.protocol == Iscsi ==>
              r.volume.sizeInBytes == newSize &&
              exists n :: n in dsm.luns && dsm.luns[n].uuid == volId && dsm.luns[n].size == ToUint64(newSize)
    ensures r.Made? && r.volume.protocol == Smb ==>
              (0 <= newSize <= TWO_63 - UNIT_MB ==> LeastMultiple(r.volume.sizeInBytes, newSize)) &&
              exists n :: n in dsm.shares && dsm.shares[n].uuid == volId &&
                          MBToBytes(dsm.shares[n].quotaMB) == r.volume.sizeInBytes
  {
    hide OnlyResized, NeverLowered, WellFormed, Visible, BytesToMBCeil, LeastMultiple, InRange, ToUint64;
    ghost var s0 := dsm.Now();
    NotResized(s0, volId);
    var k8sVolume := GetVolume(dsm, volId);
    if k8sVolume.None? {
      return Refused(BadArgument);
    }
    var v := k8sVolume.value;
    VisibleParts(s0, v);
    CanExpandFound(s0, v, newSize);
    if v.sizeInBytes > newSize {
      return Refused(BadArgument);
    }
    if newSize >= 0 {
      ExpansionRaises(v, newSize);
    }
    if v.protocol == Smb {
      var newSizeInMB := BytesToMBCeil(newSize);
      if 0 <= newSize <= TWO_63 - UNIT_MB {
        CeilToBytes(newSize);
      }
      ShareResized(s0, v.share.name, newSizeInMB);
      var status := dsm.SetShareQuota(v.share.name, newSizeInMB);
      if status != Done {
        return Refused(Internal);
      }
      r := Made(v.(sizeInBytes := MBToBytes(newSizeInMB)));
      SameRange(v, newSize, MBToBytes(newSizeInMB));
    } else {
      LunResized(s0, v.lun.name, ToUint64(newSize));
      var status := dsm.LunUpdate(volId, ToUint64(newSize));
      if n :| n in s0.luns && s0.luns[n].uuid == volId &&
              dsm.Now() == SetLun(s0, n, s0.luns[n].(size := ToUint64(newSize))) {
        UuidIsUnique(s0, n, v.lun.name);
      }
      if status != Done {
        return Refused(Internal);
      }
      r := Made(v.(sizeInBytes := newSize));
      SameRange(v, newSize, newSize);
    }
  }

  lemma SameRange(v: Volume, newSize: int64, bytes: int64)
    ensures InRange(v.(sizeInBytes := bytes), newSize) <==> InRange(v, newSize)
  {
  }

  /** ControllerExpandVolume: the range must be there and valid; its required bytes are the new size. */
  method ControllerExpandVolume(dsm: Dsm, volId: nat, range: Range) returns (r: Outcome)
    requires WellFormed(dsm.Now())
    modifies dsm
    ensures OnlyResized(old(dsm.Now()), dsm.Now(), volId)
    ensures range.NoRange? || SizeByCapacityRange(range).InvalidArgument? ==>
              r == Err(BadArgument) && dsm.Now() == old(dsm.Now())
    ensures range.Range? && (forall v :: Visible(old(dsm.Now()), v) && v.id == volId ==> InRange(v, range.required)) ==>
              NeverLowered(old(dsm.Now()), dsm.Now())
    ensures range.Range? && SizeByCapacityRange(range).Size? ==>
              && (dsm.faults == old(dsm.faults) ==> (r.Ok? <==> CanExpand(old(dsm.Now()), volId, range.required)))
              && (!CanExpand(old(dsm.Now()), volId, range.required) ==>
                    r == Err(BadArgument) && dsm.Now() == old(dsm.Now()))
    ensures r.Ok? ==> range.Range? && r.id == volId
    ensures r.Ok? && r.protocol == Iscsi ==> r.capacity == range.required
    ensures r.Ok? && r.protocol == Smb && range.required <= TWO_63 - UNIT_MB ==>
              LeastMultiple(r.capacity, range.required)
  {
    hide OnlyResized, NeverLowered, WellFormed, LeastMultiple, Visible, InRange;
    NotResized(dsm.Now(), volId);
    if range.NoRange? {
      return Err(BadArgument);
    }
    var size := SizeByCapacityRange(range);
    if size.InvalidArgument? {
      return Err(BadArgument);
    }
    var volume := ExpandVolume(dsm, volId, size.bytes);
    if volume.Refused? {
      return Err(volume.error);
    }
    r := Ok(volume.volume.id, volume.volume.sizeInBytes, volume.volume.protocol);
  }

  // ---------- The controller ----------

  /** Without aliases, what the lookup finds is the request's own LUN, complete and of the right size. */
  lemma FoundIsOwn(s: State, q: Request, v: Volume)
    requires Tidy(s, q) && NoAlias(s, q) && Visible(s, v) && IsNamed(q.volName, v.name)
    ensures VisibleIscsi(s, v) && Complete(s, q) && v == LunVolume(s.luns[Backing(q)])
  {
    if VisibleIscsi(s, v) {
      var n, tn :| VisibleOn(s, n, tn, v);
      assert n == Backing(q);
      VisibleIsReady(s, q, v);
    }
  }

  /** A complete volume shows up in lookups under the request's name. */
  lemma CompleteIsVisible(s: State, q: Request)
    requires WellFormed(s) && Complete(s, q)
    ensures var v := LunVolume(s.luns[Backing(q)]); Visible(s, v) && IsNamed(q.volName, v.name)
  {
    ShareNameTail(q.volName);
    assert VisibleOn(s, Backing(q), Backing(q), LunVolume(s.luns[Backing(q)]));
  }

  /** ... and so does the share of the request. */
  lemma ShareIsVisible(s: State, q: Request)
    requires WellFormed(s) && ShareName(q) in s.shares
    ensures var v := ShareVolume(s.shares[ShareName(q)]); Visible(s, v) && IsNamed(q.volName, v.name)
  {
    ShareNameTail(q.volName);
    assert VisibleSmb(s, ShareVolume(s.shares[ShareName(q)]));
  }

  /** Without aliases, what the lookup finds for an SMB request is its own share. */
  lemma FoundIsOwnShare(s: State, q: Request, v: Volume)
    requires WellFormed(s) && SmbNoAlias(s, q) && Visible(s, v) && IsNamed(q.volName, v.name)
    ensures ShareName(q) in s.shares && v == ShareVolume(s.shares[ShareName(q)])
  {
  }

  /** Nothing is missing, and only the request's own LUN or share can have its name. */
  ghost predicate Orderly(s: State, q: Request) {
    if q.protocol == Iscsi then Tidy(s, q) && NoAlias(s, q) else WellFormed(s) && SmbNoAlias(s, q)
  }

  /** The request's own volume is there for the lookup to find. */
  ghost predicate IsThere(s: State, q: Request) {
    if q.protocol == Iscsi then Complete(s, q) else ShareName(q) in s.shares
  }

  /** The clone was made without a quota, and that is all. */
  ghost predicate StuckAfter(s: State, t: State, q: Request, m: string)
    requires m in s.shares
  {
    t == AddShare(s, ShareName(q), 0, s.shares[m].location, s.shares[m].data)
  }

  function OwnVolume(s: State, q: Request): Volume
    requires IsThere(s, q)
  {
    if q.protocol == Iscsi then LunVolume(s.luns[Backing(q)]) else ShareVolume(s.shares[ShareName(q)])
  }

  lemma OwnIsFound(s: State, q: Request)
    requires WellFormed(s) && IsThere(s, q)
    ensures Visible(s, OwnVolume(s, q)) && IsNamed(q.volName, OwnVolume(s, q).name)
  {
    hide Visible, IsNamed, WellFormed;
    if q.protocol == Iscsi {
      CompleteIsVisible(s, q);
    } else {
      ShareIsVisible(s, q);
    }
  }

  lemma FoundIsOwnVolume(s: State, q: Request, v: Volume)
    requires Orderly(s, q) && Visible(s, v) && IsNamed(q.volName, v.name)
    ensures IsThere(s, q) && v == OwnVolume(s, q)
  {
    hide Visible, IsNamed, Tidy, NoAlias, SmbNoAlias, WellFormed;
    if q.protocol == Iscsi {
      FoundIsOwn(s, q, v);
    } else {
      FoundIsOwnShare(s, q, v);
    }
  }

  lemma NewIsNotThere(s: State, q: Request)
    requires WellFormed(s)
    ensures MakesShare(s, q) ==> !IsThere(s, q)
    ensures NameIsFree(s, q) ==> ShareName(q) !in s.shares
  {
    hide Visible, IsNamed, WellFormed;
    if ShareName(q) in s.shares {
      ShareIsVisible(s, q);
    }
  }

  /** Look the name up, and create the volume if it is not there. */
  method FindOrCreate(dsm: Dsm, q: Request) returns (r: Created)
    requires Sound(dsm.Now()) && q.size >= UNIT_GB
    modifies dsm
    ensures q.protocol == Iscsi ==> Steps(old(dsm.Now()), dsm.Now(), q)
    ensures q.protocol == Smb ==> ShareProgress(old(dsm.Now()), dsm.Now(), q)
    ensures Orderly(old(dsm.Now()), q) && r.Made? ==> IsThere(dsm.Now(), q) && r.volume == OwnVolume(dsm.Now(), q)
    ensures r.Made? ==> RecordOf(dsm.Now(), r.volume)
    ensures dsm.faults >= old(dsm.faults) && (dsm.faults == old(dsm.faults) && q.source.Blank? ==> r.Made?)
    ensures dsm.faults == old(dsm.faults) && IsThere(old(dsm.Now()), q) ==> r.Made? && dsm.Now() == old(dsm.Now())
    ensures MakesShare(old(dsm.Now()), q) && Orderly(old(dsm.Now()), q) && dsm.faults == old(dsm.faults) ==>
              r.Made? && r.volume.share.quotaMB == BytesToMBCeil(q.size)
    ensures dsm.QuotaIsStuck() && NameIsFree(old(dsm.Now()), q) ==>
              forall m :: ClonesShare(old(dsm.Now()), q, m) ==>
                            StuckAfter(old(dsm.Now()), dsm.Now(), q, m) && r == Refused(Internal)
    ensures dsm.QuotaIsStuck() && IsThere(old(dsm.Now()), q) ==> dsm.faults == old(dsm.faults)
    ensures dsm.faults == old(dsm.faults) && !NameIsFree(old(dsm.Now()), q) ==>
              dsm.Now() == old(dsm.Now()) &&
              exists v :: Visible(old(dsm.Now()), v) && IsNamed(q.volName, v.name) && r == Made(v)
    ensures dsm.faults == old(dsm.faults) && q.protocol == Iscsi && LunSourceFits(old(dsm.Now()), q) &&
            ReadyToCopy(old(dsm.Now()), q, dsm.CopiesAtOnce()) ==>
              r.Made?
    ensures RefusesSnapshot(old(dsm.Now()), q) ==> dsm.Now() == old(dsm.Now())
    ensures RefusesSnapshot(old(dsm.Now()), q) && NameIsFree(old(dsm.Now()), q) ==>
              r == Refused(BadArgument) || r == Refused(NotFound)
    ensures RefusesSnapshot(old(dsm.Now()), q) && NameIsFree(old(dsm.Now()), q) && dsm.faults == old(dsm.faults) ==>
              r == if LacksSnapshot(old(dsm.Now()), q) then Refused(NotFound) else Refused(BadArgument)
    ensures SourceOfOtherProtocol(old(dsm.Now()), q) ==> dsm.Now() == old(dsm.Now())
    ensures SourceOfOtherProtocol(old(dsm.Now()), q) && NameIsFree(old(dsm.Now()), q) ==>
              r == Refused(OutOfRange) || r == Refused(NotFound)
    ensures CrossClone(old(dsm.Now()), q) && NameIsFree(old(dsm.Now()), q) && dsm.faults == old(dsm.faults) ==>
              r == Refused(OutOfRange)
  {
    hide Steps, SettledSteps, ShareProgress, Orderly, IsThere, OwnVolume, Visible, IsNamed, WellFormed;
    ghost var s0 := dsm.Now();
    NoSteps(s0, q);
    ShareProgressReflexive(s0, q);
    NewIsNotThere(s0, q);
    if IsThere(s0, q) {
      OwnIsFound(s0, q);
    }
    var k8sVolume := GetVolumeByName(dsm, q.volName);
    if k8sVolume.None? {
      r := CreateVolume(dsm, q);
      if r.Made? {
        MadeIsRecord(s0, dsm.Now(), q, r.volume);
        MadeIsOwn(s0, dsm.Now(), q, r.volume);
      }
      return;
    }
    var v := k8sVolume.value;
    VisibleParts(s0, v);
    if Orderly(s0, q) {
      FoundIsOwnVolume(s0, q, v);
    }
    r := Made(v);
  }

  lemma MadeIsOwn(s: State, t: State, q: Request, v: Volume)
    requires q.protocol == Iscsi ==> Steps(s, t, q) && IsMapped(t, q) && v == LunVolume(t.luns[Backing(q)])
    requires q.protocol == Smb ==> ShareName(q) in t.shares && v == ShareVolume(t.shares[ShareName(q)])
    ensures Orderly(s, q) ==> IsThere(t, q) && v == OwnVolume(t, q)
  {
    if q.protocol == Iscsi && Tidy(s, q) {
      TidyAfter(s, t, q);
      TidyMappedIsComplete(t, q);
    }
    hide Tidy, Progress, Grown, IsMapped;
  }

  /** No visible volume answers to the request's name. */
  ghost predicate NameIsFree(s: State, q: Request) {
    forall v :: Visible(s, v) ==> !IsNamed(q.volName, v.name)
  }

  lemma MadeIsRecord(s: State, t: State, q: Request, v: Volume)
    requires q.protocol == Iscsi ==> Steps(s, t, q) && IsMapped(t, q) && v == LunVolume(t.luns[Backing(q)])
    requires q.protocol == Smb ==>
               ShareProgress(s, t, q) && ShareName(q) in t.shares && v == ShareVolume(t.shares[ShareName(q)])
    ensures RecordOf(t, v)
  {
    hide Tidy, Progress, Grown;
  }

  /** The record agrees with what the NAS holds under its name. */
  ghost predicate RecordOf(s: State, v: Volume) {
    if v.protocol == Iscsi then v.lun.name in s.luns && s.luns[v.lun.name] == v.lun && v == LunVolume(v.lun)
    else v.share.name in s.shares && s.shares[v.share.name] == v.share && v == ShareVolume(v.share)
  }

  /** The controller's last check: the size there is against the size asked for. */
  function Admit(q: Request, v: Volume): Outcome {
    if (v.protocol == Iscsi && v.sizeInBytes != q.size) ||
       (v.protocol == Smb && BytesToMB(v.sizeInBytes) != BytesToMBCeil(q.size)) then Err(Exists)
    else Ok(v.id, v.sizeInBytes, v.protocol)
  }

  lemma AdmitCapacity(s: State, q: Request, v: Volume)
    requires RecordOf(s, v) && Admit(q, v).Ok? && q.size >= 0
    ensures v.protocol == Iscsi ==> v.sizeInBytes == q.size
    ensures v.protocol == Smb && q.size <= TWO_63 - UNIT_MB ==> LeastMultiple(v.sizeInBytes, q.size)
  {
    if v.protocol == Smb && q.size <= TWO_63 - UNIT_MB {
      QuotaCheckIsExact(v.share.quotaMB, q.size);
    }
  }

  /** Re-creating with the same request passes the size check: always for a LUN of the request, and for a share exactly
      when its quota passes the comparison in MiB, as the quota made from the request does. */
  lemma AdmitOwn(s: State, q: Request)
    requires Orderly(s, q) && IsThere(s, q) && q.size > 0
    ensures q.protocol == Iscsi ==> Admit(q, OwnVolume(s, q)) == Ok(s.luns[Backing(q)].uuid, q.size, Iscsi)
    ensures q.protocol == Smb ==> Admit(q, OwnVolume(s, q)) == ReplyFor(s.shares[ShareName(q)], q)
    ensures q.protocol == Smb && s.shares[ShareName(q)].quotaMB == BytesToMBCeil(q.size) ==>
              Admit(q, OwnVolume(s, q)) == Ok(s.shares[ShareName(q)].uuid, MBToBytes(BytesToMBCeil(q.size)), Smb)
  {
    OwnQuotaPasses(q.size);
  }

  /** CreateVolume of the controller, after the request has been checked and unpacked. */
  method ControllerCreateVolume(dsm: Dsm, q: Request) returns (r: Outcome)
    requires Sound(dsm.Now()) && q.size >= UNIT_GB
    modifies dsm
    // retries
    ensures q.protocol == Iscsi && Tidy(old(dsm.Now()), q) && NoAlias(old(dsm.Now()), q) ==>
              Attempt(old(dsm.Now()), dsm.Now(), q, dsm.faults == old(dsm.faults), r)
    ensures q.protocol == Smb && SmbNoAlias(old(dsm.Now()), q) ==>
              SmbAttempt(old(dsm.Now()), dsm.Now(), q, dsm.faults == old(dsm.faults), r)
    ensures q.protocol == Iscsi ==> Steps(old(dsm.Now()), dsm.Now(), q)
    ensures q.protocol == Smb ==> ShareProgress(old(dsm.Now()), dsm.Now(), q)
    // capacity
    ensures r.Ok? && r.protocol == Iscsi ==> r.capacity == q.size
    ensures r.Ok? && r.protocol == Smb && q.size <= TWO_63 - UNIT_MB ==> LeastMultiple(r.capacity, q.size)
    ensures r.Ok? ==>
              exists v :: RecordOf(dsm.Now(), v) && v.id == r.id &&
                          v.sizeInBytes == r.capacity && v.protocol == r.protocol
    // clones
    ensures dsm.faults == old(dsm.faults) && q.protocol == Iscsi && Orderly(old(dsm.Now()), q) &&
            LunSourceFits(old(dsm.Now()), q) && ReadyToCopy(old(dsm.Now()), q, dsm.CopiesAtOnce()) ==>
              r.Ok?
    ensures RefusesSnapshot(old(dsm.Now()), q) ==> dsm.Now() == old(dsm.Now())
    ensures RefusesSnapshot(old(dsm.Now()), q) && NameIsFree(old(dsm.Now()), q) ==>
              r == Err(BadArgument) || r == Err(NotFound)
    ensures RefusesSnapshot(old(dsm.Now()), q) && NameIsFree(old(dsm.Now()), q) && dsm.faults == old(dsm.faults) ==>
              r == if LacksSnapshot(old(dsm.Now()), q) then Err(NotFound) else Err(BadArgument)
    ensures SourceOfOtherProtocol(old(dsm.Now()), q) ==> dsm.Now() == old(dsm.Now())
    ensures SourceOfOtherProtocol(old(dsm.Now()), q) && NameIsFree(old(dsm.Now()), q) ==>
              r == Err(OutOfRange) || r == Err(NotFound)
    ensures CrossClone(old(dsm.Now()), q) && NameIsFree(old(dsm.Now()), q) && dsm.faults == old(dsm.faults) ==>
              r == Err(OutOfRange)
    // a name that is taken
    ensures dsm.faults == old(dsm.faults) && !NameIsFree(old(dsm.Now()), q) ==>
              dsm.Now() == old(dsm.Now()) &&
              exists v :: Visible(old(dsm.Now()), v) && IsNamed(q.volName, v.name) && r == Admit(q, v)
    // a NAS on which no quota can be set
    ensures dsm.QuotaIsStuck() && NameIsFree(old(dsm.Now()), q) ==>
              forall m :: ClonesShare(old(dsm.Now()), q, m) ==>
                            StuckAfter(old(dsm.Now()), dsm.Now(), q, m) && r == Err(Internal)
    ensures dsm.QuotaIsStuck() && IsThere(old(dsm.Now()), q) ==> dsm.faults == old(dsm.faults)
  {
    hide Progress, Steps, ShareProgress, Tidy, Visible, NoAlias, WellFormed, RecordOf, Grown, OwnVolume, ReplyFor;
    ghost var s0 := dsm.Now();
    var found := FindOrCreate(dsm, q);
    r := if found.Refused? then Err(found.error) else Admit(q, found.volume);
    if r.Ok? {
      AdmitCapacity(dsm.Now(), q, found.volume);
    }
    if Orderly(s0, q) {
      ReplyIsAttempt(s0, dsm.Now(), q, dsm.faults == old(dsm.faults), found, r);
      if found.Made? {
        OwnIsAdmitted(s0, dsm.Now(), q);
      }
    }
  }

  /** What one call asks of the NAS holds again after it, however it ended, so the call can be repeated. */
  lemma AttemptCanBeRepeated(s: State, t: State, q: Request)
    requires Orderly(s, q)
    requires q.protocol == Iscsi ==> Steps(s, t, q)
    requires q.protocol == Smb ==> ShareProgress(s, t, q)
    ensures Orderly(t, q) && (Sound(s) ==> Sound(t))
    ensures q.protocol == Iscsi ==> Progress(s, t, q)
  {
    if q.protocol == Iscsi {
      TidyAfter(s, t, q);
      ProgressParts(s, t, q);
      GrownKeepsNoAlias(s, t, q);
    }
    hide WellFormed, Tidy, NoAlias;
  }

  /** The request's own LUN passes the size check after the call. */
  lemma OwnIsAdmitted(s: State, t: State, q: Request)
    requires Orderly(s, q) && q.size > 0 && IsThere(t, q)
    requires q.protocol == Iscsi ==> Steps(s, t, q)
    requires q.protocol == Smb ==> ShareProgress(s, t, q)
    ensures q.protocol == Iscsi ==> Admit(q, OwnVolume(t, q)).Ok?
  {
    hide Steps, ShareProgress, Orderly, Admit;
    AttemptCanBeRepeated(s, t, q);
    AdmitOwn(t, q);
  }

  /** What looking up or creating the volume gives, with the size check after it, is one attempt of the retry
      theorems. */
  lemma ReplyIsAttempt(s: State, t: State, q: Request, clean: bool, found: Created, r: Outcome)
    requires Orderly(s, q) && q.size > 0 && r == if found.Refused? then Err(found.error) else Admit(q, found.volume)
    requires found.Made? ==> IsThere(t, q) && found.volume == OwnVolume(t, q)
    requires clean && q.source.Blank? ==> found.Made?
    requires clean && IsThere(s, q) ==> found.Made? && t == s
    requires clean && q.protocol == Iscsi && IsCopied(s, q) && LunSourceFits(s, q) ==> found.Made?
    requires clean && MakesShare(s, q) ==> found.Made? && found.volume.share.quotaMB == BytesToMBCeil(q.size)
    requires q.protocol == Iscsi ==> Steps(s, t, q)
    requires q.protocol == Smb ==> ShareProgress(s, t, q)
    ensures q.protocol == Iscsi ==> Attempt(s, t, q, clean, r)
    ensures q.protocol == Smb ==> SmbAttempt(s, t, q, clean, r)
  {
    hide WellFormed, Grown, Tidy, ShareName, ComesFrom, LunSourceFits, SourceFits, QuotaPasses, BytesToMBCeil;
    AttemptCanBeRepeated(s, t, q);
    if found.Made? {
      AdmitOwn(t, q);
      OwnQuotaPasses(q.size);
    }
  }
}
