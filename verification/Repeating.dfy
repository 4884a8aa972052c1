/** A client that sends the same create request again and again, and what it gets. */
module Repeating {
  import opened Capacity
  import opened Nas
  import opened Volumes
  import opened Retries
  import opened ShareRetries
  import opened Provisioning

  /** The records of the calls are a run as the retry theorems describe it. */
  ghost predicate IsRun(calls: seq<Call>, q: Request) {
    if q.protocol == Iscsi then Calls(calls, q) else SmbCalls(calls, q)
  }

  ghost predicate IsCall(c: Call, q: Request) {
    if q.protocol == Iscsi then Attempt(c.before, c.after, q, c.clean, c.result)
    else SmbAttempt(c.before, c.after, q, c.clean, c.result)
  }

  ghost predicate Follows(s: State, t: State, q: Request) {
    if q.protocol == Iscsi then Between(s, t, q) else SmbBetween(s, t, q)
  }

  lemma LongerRun(calls: seq<Call>, q: Request, c: Call)
    requires IsRun(calls, q) && IsCall(c, q) && (calls != [] ==> Follows(calls[|calls| - 1].after, c.before, q))
    ensures IsRun(calls + [c], q)
  {
    hide Attempt, SmbAttempt, Between, SmbBetween, Fit, SmbFit;
  }

  lemma PauseFollows(s: State, t: State, q: Request)
    requires Sound(s) && Orderly(s, q)
    requires t == s || (Backing(q) in s.luns && t == SetLun(s, Backing(q), s.luns[Backing(q)].(locked := false)))
    ensures Sound(t) && Orderly(t, q) && Follows(s, t, q)
  {
    hide WellFormed, Backing;
    if t != s {
      WellFormedUnlocked(s, Backing(q));
    }
  }

  // ---------- A clone whose quota is never set ----------

  /** The request is for the first clone of a share. */
  ghost predicate FirstClone(s: State, q: Request) {
    NameIsFree(s, q) && exists m :: ClonesShare(s, q, m)
  }

  ghost predicate LacksQuota(s: State, q: Request) {
    q.protocol == Smb && ShareName(q) in s.shares && s.shares[ShareName(q)].quotaMB == 0
  }

  lemma NoQuotaNoReply(s: State, q: Request)
    requires LacksQuota(s, q) && q.size > 0
    ensures ReplyFor(s.shares[ShareName(q)], q) == Err(Exists)
  {
    CeilNotZero(q.size);
  }

  lemma StuckLacksQuota(s: State, t: State, q: Request, m: string)
    requires ClonesShare(s, q, m) && StuckAfter(s, t, q, m)
    ensures LacksQuota(t, q)
  {
  }

  lemma PauseKeepsShares(s: State, t: State, q: Request)
    requires LacksQuota(s, q) && t.shares == s.shares
    ensures LacksQuota(t, q)
  {
  }

  /** One call, and some time for the NAS to go on with its copying. */
  method Once(dsm: Dsm, q: Request) returns (r: Outcome, ghost call: Call)
    requires Sound(dsm.Now()) && Orderly(dsm.Now(), q) && q.size >= UNIT_GB
    modifies dsm
    ensures Sound(dsm.Now()) && Orderly(dsm.Now(), q)
    ensures IsCall(call, q) && call.before == old(dsm.Now()) && call.result == r && Follows(call.after, dsm.Now(), q)
    ensures dsm.QuotaIsStuck() && FirstClone(old(dsm.Now()), q) ==> r == Err(Internal) && LacksQuota(dsm.Now(), q)
    ensures dsm.QuotaIsStuck() && LacksQuota(old(dsm.Now()), q) ==> r == Err(Exists) && LacksQuota(dsm.Now(), q)
  {
    hide Tidy, NoAlias, SmbNoAlias, WellFormed, Attempt, Steps, ShareProgress, NameIsFree, ClonesShare, Between,
      SmbBetween, ReplyFor, ShareName, StuckAfter, Admit, RecordOf;
    ghost var s := dsm.Now();
    r := ControllerCreateVolume(dsm, q);
    ghost var t := dsm.Now();
    call := Call(s, t, dsm.faults == old(dsm.faults), r);
    AttemptCanBeRepeated(s, t, q);
    if FirstClone(s, q) && dsm.QuotaIsStuck() {
      var m :| ClonesShare(s, q, m);
      StuckLacksQuota(s, t, q, m);
    }
    if LacksQuota(s, q) {
      NoQuotaNoReply(s, q);
    }
    dsm.Pause(Backing(q));
    PauseFollows(t, dsm.Now(), q);
    if LacksQuota(t, q) {
      PauseKeepsShares(t, dsm.Now(), q);
    }
  }

  /** The same request `n` times. All successes are the same. On a NAS on which no quota can be set, a request
      that clones a share is answered with an internal error the first time and with AlreadyExists for ever
      after. */
  method Repeat(dsm: Dsm, q: Request, n: nat) returns (results: seq<Outcome>, ghost calls: seq<Call>)
    requires Sound(dsm.Now()) && Orderly(dsm.Now(), q) && q.size >= UNIT_GB
    modifies dsm
    ensures |results| == |calls| == n && forall i :: 0 <= i < n ==> results[i] == calls[i].result
    ensures n > 0 ==> calls[0].before == old(dsm.Now())
    ensures IsRun(calls, q)
    ensures forall i, j :: 0 <= i <= j < n && results[i].Ok? && results[j].Ok? ==> results[j] == results[i]
    ensures dsm.QuotaIsStuck() && FirstClone(old(dsm.Now()), q) ==>
              forall i :: 0 <= i < n ==> results[i] == if i == 0 then Err(Internal) else Err(Exists)
  {
    hide IsCall, Follows, Sound, Orderly, IsRun, FirstClone, LacksQuota;
    results, calls := [], [];
    EmptyRun(q);
    for i := 0 to n
      invariant |results| == |calls| == i && forall k :: 0 <= k < i ==> results[k] == calls[k].result
      invariant Sound(dsm.Now()) && Orderly(dsm.Now(), q) && IsRun(calls, q)
      invariant if i == 0 then dsm.Now() == old(dsm.Now())
                else calls[0].before == old(dsm.Now()) && Follows(calls[i - 1].after, dsm.Now(), q)
      invariant dsm.QuotaIsStuck() && FirstClone(old(dsm.Now()), q) ==>
                  (i > 0 ==> LacksQuota(dsm.Now(), q)) &&
                  forall k :: 0 <= k < i ==> results[k] == if k == 0 then Err(Internal) else Err(Exists)
    {
      ghost var c;
      var r;
      r, c := Once(dsm, q);
      LongerRun(calls, q, c);
      calls := calls + [c];
      results := results + [r];
    }
    SuccessesAgree(calls, q);
  }

  lemma SuccessesAgree(calls: seq<Call>, q: Request)
    requires IsRun(calls, q) && q.size > 0 && (calls != [] ==> Sound(calls[0].before) && Orderly(calls[0].before, q))
    ensures forall i, j :: 0 <= i <= j < |calls| && calls[i].result.Ok? && calls[j].result.Ok? ==>
              calls[j].result == calls[i].result
  {
    hide Calls, SmbCalls, Sound, Tidy, NoAlias, SmbNoAlias, WellFormed, Complete, Ready, SameOwn, Grown,
      ReplyFor, ShareName;
    forall i, j | 0 <= i <= j < |calls| && calls[i].result.Ok? && calls[j].result.Ok?
      ensures calls[j].result == calls[i].result
    {
      if q.protocol == Iscsi {
        RetriesConverge(calls, q, i, j);
      } else {
        SmbRetriesConverge(calls, q, i, j);
      }
    }
  }

  lemma EmptyRun(q: Request)
    ensures IsRun([], q)
  {
  }

  method StuckNas(s: State) returns (dsm: Dsm)
    ensures fresh(dsm) && dsm.Now() == s && dsm.QuotaIsStuck()
  {
    dsm := new Dsm(s, (api, t) => if api == SetQuota then FailsBefore else Works, t => true, t => true);
  }

  /** It happens: a share of 1 GiB is on the NAS, and a client asks for a clone of it. */
  method CloneNeverMade(n: nat) returns (results: seq<Outcome>)
    ensures |results| == n
    ensures forall i :: 0 <= i < n ==> results[i] == if i == 0 then Err(Internal) else Err(Exists)
  {
    hide Sound, Orderly, FirstClone, IsRun;
    var source := Share("k8s-csi-data", 1, 1024, "/volume1", 7);
    var s := State(map[], map[], map[source.name := source], map[], 2);
    var dsm := StuckNas(s);
    var q := Request("copy", UNIT_GB, false, Smb, FromVolume(1), "");
    CloneIsFirst(s, q, source);
    ghost var calls;
    results, calls := Repeat(dsm, q, n);
  }

  lemma CloneIsFirst(s: State, q: Request, source: Share)
    requires source == Share("k8s-csi-data", 1, 1024, "/volume1", 7)
    requires s == State(map[], map[], map[source.name := source], map[], 2)
    requires q == Request("copy", UNIT_GB, false, Smb, FromVolume(1), "")
    ensures Sound(s) && Orderly(s, q) && FirstClone(s, q)
  {
    assert GenShareName("copy") == "k8s-csi-copy" == GenLunName("copy");
    assert source.name[8] != "k8s-csi-copy"[8];
    assert ClonesShare(s, q, source.name);
  }
}
