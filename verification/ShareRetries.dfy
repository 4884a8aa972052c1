/** What an attempt to create an SMB volume may do to the NAS, when repeating it converges, and when it never does. */
module ShareRetries {
  import opened Capacity
  import opened Nas
  import opened Volumes
  import opened Retries

  function ShareName(q: Request): string {
    GenShareName(q.volName)
  }

  /** The copy of a share with this quota: it comes with that quota or none, and none is replaced by the one
      asked for. */
  predicate CopyOf(share: Share, quotaMB: int64, location: string, q: Request) {
    && share.location == location
    && (share.quotaMB == 0 || share.quotaMB == quotaMB || share.quotaMB == BytesToMBCeil(q.size))
  }

  /** Where a new share comes from: a new volume is empty, with the quota and at the location asked for; a clone
      is copied from its source, which must be there, and has the contents of that share or snapshot. */
  ghost predicate ComesFrom(s: State, q: Request, share: Share) {
    match q.source
    case Blank => share.location == q.location && share.quotaMB == BytesToMBCeil(q.size) && share.data == 0
    case FromVolume(id) =>
      exists m :: m in s.shares && s.shares[m].uuid == id && share.data == s.shares[m].data &&
                  CopyOf(share, s.shares[m].quotaMB, s.shares[m].location, q) &&
                  (q.size != 0 ==> s.shares[m].quotaMB == BytesToMBCeil(q.size))
    case FromSnapshot(id) =>
      && id in s.snapshots && s.snapshots[id].parentName in s.shares && share.data == s.snapshots[id].data
      && CopyOf(share, s.shares[s.snapshots[id].parentName].quotaMB, s.snapshots[id].rootPath, q)
  }

  /** What an SMB attempt may do: bring the one share into being, from where the request says, or give it the quota
      asked for when it has none, and nothing once it has one. */
  ghost predicate ShareProgress(s: State, t: State, q: Request) {
    var name := ShareName(q);
    && WellFormed(t)
    && t.luns == s.luns && t.targets == s.targets && t.snapshots == s.snapshots
    && (forall n :: n != name ==> (n in t.shares <==> n in s.shares) && (n in s.shares ==> t.shares[n] == s.shares[n]))
    && (name in s.shares ==>
          name in t.shares &&
          (t == s || (s.shares[name].quotaMB == 0 && t == SetShare(s, name, WithQuota(s.shares[name], q)))))
    && (name !in s.shares ==> t == s || (name in t.shares && ComesFrom(s, q, t.shares[name])))
  }

  function WithQuota(share: Share, q: Request): Share {
    share.(quotaMB := BytesToMBCeil(q.size))
  }

  lemma ShareNameIsName(q: Request)
    ensures ShareName(q) != ""
  {
    ShareNameTail(q.volName);
  }

  lemma NewShareProgress(s: State, q: Request, quotaMB: int64, location: string, data: nat)
    requires WellFormed(s) && ShareName(q) !in s.shares
    requires ComesFrom(s, q, Share(ShareName(q), s.nextId, quotaMB, location, data))
    ensures ShareProgress(s, AddShare(s, ShareName(q), quotaMB, location, data), q)
  {
    ShareNameIsName(q);
    hide ShareName, ComesFrom;
  }

  lemma QuotaProgress(s: State, q: Request)
    requires WellFormed(s) && ShareName(q) in s.shares && s.shares[ShareName(q)].quotaMB == 0
    ensures ShareProgress(s, SetShare(s, ShareName(q), WithQuota(s.shares[ShareName(q)], q)), q)
  {
    hide ShareName, ComesFrom;
  }

  lemma OriginStays(s: State, t: State, q: Request, share: Share)
    requires ShareProgress(s, t, q) && ShareName(q) !in s.shares && ShareName(q) !in t.shares && ComesFrom(t, q, share)
    ensures ComesFrom(s, q, share)
  {
  }

  lemma QuotaKeepsOrigin(s: State, q: Request, share: Share)
    requires ComesFrom(s, q, share)
    ensures ComesFrom(s, q, WithQuota(share, q))
  {
  }

  lemma ShareProgressTransitive(s: State, t: State, u: State, q: Request)
    requires ShareProgress(s, t, q) && ShareProgress(t, u, q)
    ensures ShareProgress(s, u, q)
  {
    hide WellFormed, ComesFrom, ShareName;
    var n := ShareName(q);
    if n !in s.shares && n in u.shares {
      if n in t.shares {
        QuotaKeepsOrigin(s, q, t.shares[n]);
      } else {
        OriginStays(s, t, q, u.shares[n]);
      }
    }
  }

  lemma ShareProgressReflexive(s: State, q: Request)
    requires WellFormed(s)
    ensures ShareProgress(s, s, q)
  {
  }

  lemma WellFormedAfter(s: State, t: State, q: Request)
    requires ShareProgress(s, t, q)
    ensures WellFormed(t)
  {
  }

  // ---------- Attempts ----------

  /** Nothing but the share of the request answers to the volume's name. */
  ghost predicate SmbNoAlias(s: State, q: Request) {
    && GenLunName(q.volName) !in s.luns && ShareName(q) !in s.luns
    && (GenLunName(q.volName) == ShareName(q) || GenLunName(q.volName) !in s.shares)
  }

  /** The controller's comparison, in MiB, of the size there with the size asked for. */
  predicate QuotaPasses(quotaMB: int64, size: int64) {
    BytesToMB(MBToBytes(quotaMB)) == BytesToMBCeil(size)
  }

  /** What a call replies that finds this share. */
  function ReplyFor(share: Share, q: Request): Outcome {
    if QuotaPasses(share.quotaMB, q.size) then Ok(share.uuid, MBToBytes(share.quotaMB), Smb) else Err(Exists)
  }

  /** The source is there and of the size asked for; there is nothing to ask of it for a new volume. */
  ghost predicate SourceFits(s: State, q: Request) {
    match q.source
    case Blank => true
    case FromVolume(id) =>
      exists m :: m in s.shares && PREFIX <= m && s.shares[m].uuid == id && s.shares[m].quotaMB == BytesToMBCeil(q.size)
    case FromSnapshot(id) =>
      && id in s.snapshots && s.snapshots[id].protocol == Smb
      && (q.location == "" || q.location == s.snapshots[id].rootPath)
      && s.snapshots[id].parentName in s.shares
      && Suits(s.shares[s.snapshots[id].parentName], q)
  }

  /** The share's quota is the one asked for, or it has none. */
  predicate Suits(share: Share, q: Request) {
    share.quotaMB == 0 || share.quotaMB == BytesToMBCeil(q.size)
  }

  /** One CreateVolume call for an SMB request. A success is the reply for the share as it then is. When no call to the
      NAS fails, a share that is there is neither changed nor given a quota, and otherwise the volume is made if
      the source fits. */
  ghost predicate SmbAttempt(s: State, t: State, q: Request, clean: bool, r: Outcome) {
    var n := ShareName(q);
    && ShareProgress(s, t, q)
    && (r.Ok? ==> n in t.shares && r == ReplyFor(t.shares[n], q))
    && (clean && n in s.shares ==> t == s && r == ReplyFor(s.shares[n], q))
    && (clean && n !in s.shares && SourceFits(s, q) ==> r.Ok?)
  }

  // ---------- Runs of identical calls ----------

  /** Between two calls others may do anything but touch the share or take the volume's names. */
  ghost predicate SmbBetween(s: State, t: State, q: Request) {
    var n := ShareName(q);
    && Sound(t) && SmbNoAlias(t, q)
    && (n in t.shares <==> n in s.shares)
    && (n in s.shares ==> t.shares[n] == s.shares[n])
  }

  /** The NAS meets what a call asks for, and only the request's share can have its name. */
  ghost predicate SmbFit(s: State, q: Request) {
    Sound(s) && SmbNoAlias(s, q)
  }

  /** What Provisioning.ControllerCreateVolume promises of each call, one after the other. */
  ghost predicate SmbCalls(calls: seq<Call>, q: Request) {
    && (forall i :: 0 <= i < |calls| && SmbFit(calls[i].before, q) ==>
          SmbAttempt(calls[i].before, calls[i].after, q, calls[i].clean, calls[i].result))
    && (forall i, j :: 0 <= i < |calls| && j == i + 1 < |calls| ==> SmbBetween(calls[i].after, calls[j].before, q))
  }

  lemma EverySmbCall(calls: seq<Call>, q: Request, i: nat)
    requires SmbCalls(calls, q) && i < |calls|
    requires SmbFit(calls[0].before, q)
    ensures SmbAttempt(calls[i].before, calls[i].after, q, calls[i].clean, calls[i].result)
    ensures i > 0 ==> SmbBetween(calls[i - 1].after, calls[i].before, q)
  {
    hide Sound, SmbAttempt;
  }

  lemma SuccessHasQuota(share: Share, q: Request)
    requires ReplyFor(share, q).Ok? && q.size > 0
    ensures share.quotaMB != 0
  {
    CeilNotZero(q.size);
  }

  /** A share with a quota is never changed by later calls. */
  lemma {:induction false} QuotaStays(calls: seq<Call>, q: Request, i: nat, j: nat)
    requires SmbCalls(calls, q) && i <= j < |calls|
    requires SmbFit(calls[0].before, q)
    requires ShareName(q) in calls[i].after.shares && calls[i].after.shares[ShareName(q)].quotaMB != 0
    ensures ShareName(q) in calls[j].after.shares
    ensures calls[j].after.shares[ShareName(q)] == calls[i].after.shares[ShareName(q)]
    ensures i < j ==> calls[j].after == calls[j].before
    decreases j, j - i
  {
    hide Sound, WellFormed, SmbCalls, SmbNoAlias, ComesFrom, SourceFits, ShareName, ReplyFor;
    if i < j {
      QuotaStays(calls, q, i, j - 1);
      EverySmbCall(calls, q, j);
    }
  }

  /** SMB retries converge after a success: no later call changes anything, every further success returns the
      same id and capacity, and a later call in which nothing fails does succeed. */
  lemma SmbRetriesConverge(calls: seq<Call>, q: Request, i: nat, j: nat)
    requires SmbCalls(calls, q) && i <= j < |calls| && calls[i].result.Ok? && q.size > 0
    requires SmbFit(calls[0].before, q)
    ensures ShareName(q) in calls[i].after.shares && calls[i].result == ReplyFor(calls[i].after.shares[ShareName(q)], q)
    ensures ShareName(q) in calls[j].after.shares
    ensures calls[j].after.shares[ShareName(q)] == calls[i].after.shares[ShareName(q)]
    ensures i < j ==> calls[j].after == calls[j].before
    ensures calls[j].clean || calls[j].result.Ok? ==> calls[j].result == calls[i].result
  {
    hide Sound, WellFormed, SmbCalls, SmbNoAlias, ComesFrom, SourceFits, ShareName, ReplyFor;
    EverySmbCall(calls, q, i);
    EverySmbCall(calls, q, j);
    SuccessHasQuota(calls[i].after.shares[ShareName(q)], q);
    QuotaStays(calls, q, i, j);
  }

  /** Once the share is there, in whatever state, calls in which nothing fails never change it and all give the
      same reply: they succeed exactly when its quota passes the comparison. In particular a share left behind
      with quota 0, as by a clone whose quota could not be set, makes every such call end in Exists, for ever.
      */
  lemma {:induction false} CleanRetries(calls: seq<Call>, q: Request, i: nat, j: nat)
    requires SmbCalls(calls, q) && i < j < |calls| && ShareName(q) in calls[i].after.shares
    requires SmbFit(calls[0].before, q)
    requires forall k :: i < k <= j ==> calls[k].clean
    ensures ShareName(q) in calls[j].after.shares
    ensures calls[j].after.shares[ShareName(q)] == calls[i].after.shares[ShareName(q)]
    ensures calls[j].after == calls[j].before
    ensures calls[j].result == ReplyFor(calls[i].after.shares[ShareName(q)], q)
    ensures calls[i].after.shares[ShareName(q)].quotaMB == 0 && q.size > 0 ==> calls[j].result == Err(Exists)
    decreases j
  {
    hide Sound, WellFormed, SmbCalls, SmbNoAlias, ComesFrom, SourceFits, ShareName;
    if i + 1 < j {
      CleanRetries(calls, q, i, j - 1);
    }
    EverySmbCall(calls, q, j);
    if calls[i].after.shares[ShareName(q)].quotaMB == 0 && q.size > 0 {
      CeilNotZero(q.size);
    }
    hide ReplyFor;
  }
}
