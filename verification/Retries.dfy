/** What an attempt to create an iSCSI volume may do to the NAS, however it ends, and why
    repeating the attempt converges. */
module Retries {
  import opened Capacity
  import opened Nas
  import opened Volumes

  datatype Source = Blank | FromVolume(id: nat) | FromSnapshot(id: nat)

  /** A create request, as the controller hands it to the service. */
  datatype Request = Request(volName: string, size: int64, multi: bool, protocol: Protocol, source: Source,
                             location: string)

  /** LUN and target get the same name. */
  function Backing(q: Request): string {
    GenLunName(q.volName)
  }

  /** Nothing else on the NAS answers to the volume's name. */
  ghost predicate NoAlias(s: State, q: Request) {
    && GenLunName(q.volName) !in s.shares && GenShareName(q.volName) !in s.shares
    && (GenShareName(q.volName) == GenLunName(q.volName) || GenShareName(q.volName) !in s.luns)
  }

  /** The LUN and the target of the request, as far as they exist, are the work of this request: the LUN has
      its size, if it asks for one, no other target maps it, and once mapped it is unlocked and its sessions are set. */
  ghost predicate Tidy(s: State, q: Request) {
    var b := Backing(q);
    && WellFormed(s)
    && (b in s.luns ==> (q.size != 0 ==> ToInt64(s.luns[b].size) == q.size) && (q.source.Blank? ==> !s.luns[b].locked))
    && (b in s.luns ==> forall n :: n in s.targets && s.luns[b].uuid in s.targets[n].mapped ==> n == b)
    && (b in s.targets ==> s.targets[b].mapped == [] || (Complete(s, q) && Ready(s, q)))
  }

  /** Nothing of the request exists yet. */
  ghost predicate Untouched(s: State, q: Request) {
    WellFormed(s) && Backing(q) !in s.luns && Backing(q) !in s.targets
  }

  ghost predicate Ready(s: State, q: Request) {
    var b := Backing(q);
    b in s.luns && b in s.targets && !s.luns[b].locked && (q.multi ==> s.targets[b].maxSessions == 0)
  }

  /** The one LUN of that name is mapped to its target. */
  ghost predicate Complete(s: State, q: Request) {
    var b := Backing(q);
    b in s.luns && b in s.targets && s.targets[b].mapped == [s.luns[b].uuid]
  }

  /** Where a new LUN comes from: a new volume is empty, of the size and at the location asked for; a clone has the size
      and the contents of its source, which must be there and of the size asked for, if one is. */
  ghost predicate LunComesFrom(s: State, q: Request, lun: Lun) {
    match q.source
    case Blank => lun.size == q.size && lun.location == q.location && lun.data == 0
    case FromVolume(id) =>
      && (q.size != 0 ==> ToInt64(lun.size) == q.size)
      && exists n :: n in s.luns && s.luns[n].uuid == id &&
                     lun.size == s.luns[n].size && lun.data == s.luns[n].data &&
                     lun.location == if q.location == "" then s.luns[n].location else q.location
    case FromSnapshot(id) =>
      && (q.size != 0 ==> ToInt64(lun.size) == q.size)
      && id in s.snapshots && lun.size == s.snapshots[id].size && lun.data == s.snapshots[id].data
      && lun.location == s.snapshots[id].rootPath
  }

  /** A new target allows one session, and more only for a request that asks for more. */
  predicate SessionsKept(s: State, t: State, b: string) {
    b in t.targets ==> t.targets[b].maxSessions == if b in s.targets then s.targets[b].maxSessions else 1
  }

  /** Everything but the request's own LUN and target stays; those two only come into being, the LUN from where the
      request says, get unlocked, set up and mapped. */
  ghost predicate Grown(s: State, t: State, q: Request) {
    var b := Backing(q);
    && t.shares == s.shares && t.snapshots == s.snapshots && s.nextId <= t.nextId
    && (forall n :: n != b ==> (n in t.luns <==> n in s.luns) && (n in s.luns ==> t.luns[n] == s.luns[n]))
    && (forall n :: n != b ==>
          (n in t.targets <==> n in s.targets) && (n in s.targets ==> t.targets[n] == s.targets[n]))
    && (b in s.luns ==> b in t.luns && (t.luns[b] == s.luns[b] || t.luns[b] == s.luns[b].(locked := false)))
    && (b !in s.luns && b in t.luns ==> LunComesFrom(s, q, t.luns[b]))
    && (b in s.targets ==> b in t.targets && t.targets[b].id == s.targets[b].id)
    && (!q.multi ==> SessionsKept(s, t, b))
  }

  /** The effect of part or all of an attempt: growth that keeps order, and nothing at all once the volume is
      complete. */
  ghost predicate Progress(s: State, t: State, q: Request) {
    Tidy(t, q) && Grown(s, t, q) && (Complete(s, q) ==> t == s)
  }

  lemma ProgressTransitive(s: State, t: State, u: State, q: Request)
    requires Progress(s, t, q) && Progress(t, u, q)
    ensures Progress(s, u, q)
  {
    hide Grown, Tidy;
    GrownTransitive(s, t, u, q);
  }

  lemma ProgressReflexive(s: State, q: Request)
    requires Tidy(s, q)
    ensures Progress(s, s, q)
  {
  }

  lemma WellFormedNewLun(s: State, name: string, size: uint64, locked: bool, location: string, data: nat)
    requires WellFormed(s) && name !in s.luns
    ensures WellFormed(AddLun(s, name, size, locked, location, data))
  {
  }

  lemma WellFormedNewTarget(s: State, name: string)
    requires WellFormed(s) && name !in s.targets
    ensures WellFormed(AddTarget(s, name))
  {
  }

  lemma WellFormedSetTarget(s: State, name: string, t: Target)
    requires WellFormed(s) && name in s.targets && t.name == name && t.id == s.targets[name].id
    requires NoTwice(t.mapped) && forall k :: k in t.mapped ==> k < s.nextId
    ensures WellFormed(SetTarget(s, name, t))
  {
  }

  lemma WellFormedUnlocked(s: State, name: string)
    requires WellFormed(s) && name in s.luns
    ensures WellFormed(SetLun(s, name, s.luns[name].(locked := false)))
  {
  }

  lemma NewLunProgress(s: State, q: Request, size: uint64, locked: bool, location: string, data: nat)
    requires Tidy(s, q) && Backing(q) !in s.luns
    requires LunComesFrom(s, q, Lun(Backing(q), s.nextId, size, locked, location, data))
    requires (q.source.Blank? ==> !locked)
    ensures Progress(s, AddLun(s, Backing(q), size, locked, location, data), q)
  {
    hide WellFormed, Backing, ToInt64, LunComesFrom;
    WellFormedNewLun(s, Backing(q), size, locked, location, data);
    NotYetMapped(s);
    OriginSize(s, q, Lun(Backing(q), s.nextId, size, locked, location, data));
  }

  lemma OriginSize(s: State, q: Request, lun: Lun)
    requires LunComesFrom(s, q, lun)
    ensures q.size != 0 ==> ToInt64(lun.size) == q.size
  {
  }

  lemma NotYetMapped(s: State)
    requires WellFormed(s)
    ensures forall n :: n in s.targets ==> s.nextId !in s.targets[n].mapped
  {
  }

  lemma NewTargetProgress(s: State, q: Request)
    requires Tidy(s, q) && Backing(q) !in s.targets
    ensures Progress(s, AddTarget(s, Backing(q)), q)
  {
    hide WellFormed, Backing, ToInt64, LunComesFrom;
    WellFormedNewTarget(s, Backing(q));
  }

  lemma UnlockProgress(s: State, q: Request)
    requires Tidy(s, q) && Backing(q) in s.luns
    ensures Progress(s, SetLun(s, Backing(q), s.luns[Backing(q)].(locked := false)), q)
  {
    hide WellFormed, Backing, ToInt64;
    WellFormedUnlocked(s, Backing(q));
    var t := SetLun(s, Backing(q), s.luns[Backing(q)].(locked := false));
    if Complete(s, q) {
      assert s.luns[Backing(q)].(locked := false) == s.luns[Backing(q)];
      assert t.luns == s.luns;
    }
  }

  lemma WellFormedSessions(s: State, name: string)
    requires WellFormed(s) && name in s.targets
    ensures WellFormed(SetTarget(s, name, s.targets[name].(maxSessions := 0)))
  {
    WellFormedSetTarget(s, name, s.targets[name].(maxSessions := 0));
  }

  lemma SessionsProgress(s: State, q: Request)
    requires Tidy(s, q) && Backing(q) in s.targets && q.multi
    ensures Progress(s, SetTarget(s, Backing(q), s.targets[Backing(q)].(maxSessions := 0)), q)
  {
    hide WellFormed, Backing, ToInt64, LunComesFrom;
    WellFormedSessions(s, Backing(q));
    var t := SetTarget(s, Backing(q), s.targets[Backing(q)].(maxSessions := 0));
    if Complete(s, q) {
      assert s.targets[Backing(q)].(maxSessions := 0) == s.targets[Backing(q)];
      assert t.targets == s.targets;
    }
  }

  lemma WellFormedMapped(s: State, name: string, uuid: nat)
    requires WellFormed(s) && name in s.targets
    requires (uuid < s.nextId || exists n :: n in s.luns && s.luns[n].uuid == uuid)
    ensures WellFormed(SetTarget(s, name, Mapped(s.targets[name], uuid)))
  {
    var t := Mapped(s.targets[name], uuid);
    WellFormedSetTarget(s, name, t);
  }

  lemma MappingProgress(s: State, q: Request)
    requires Tidy(s, q) && Ready(s, q)
    ensures var t := SetTarget(s, Backing(q), Mapped(s.targets[Backing(q)], s.luns[Backing(q)].uuid));
            Progress(s, t, q) && Complete(t, q)
  {
    hide WellFormed, Backing, ToInt64;
    var b := Backing(q);
    var t := SetTarget(s, b, Mapped(s.targets[b], s.luns[b].uuid));
    WellFormedMapped(s, b, s.luns[b].uuid);
    if s.targets[b].mapped == [] {
      assert t.targets[b].mapped == [s.luns[b].uuid];
    } else {
      assert t.targets == s.targets;
    }
  }

  // ---------- Steps of an attempt on any NAS ----------

  /** Part of an attempt that starts on any well-formed NAS: growth in any case, and progress if the request's own
      objects were tidy. */
  ghost predicate Steps(s: State, t: State, q: Request) {
    WellFormed(t) && Grown(s, t, q) && (Tidy(s, q) ==> Progress(s, t, q))
  }

  ghost predicate Settled(s: State, q: Request) {
    Tidy(s, q) && Backing(q) in s.luns && !s.luns[Backing(q)].locked
  }

  /** The same for the last part of an attempt, which needs the LUN to be unlocked. */
  ghost predicate SettledSteps(s: State, t: State, q: Request) {
    WellFormed(t) && Grown(s, t, q) && (Settled(s, q) ==> Progress(s, t, q))
  }

  lemma LunOriginStays(s: State, t: State, q: Request, lun: Lun)
    requires Grown(s, t, q) && Backing(q) !in s.luns && Backing(q) !in t.luns && LunComesFrom(t, q, lun)
    ensures LunComesFrom(s, q, lun)
  {
  }

  lemma UnlockKeepsOrigin(s: State, q: Request, lun: Lun)
    requires LunComesFrom(s, q, lun)
    ensures LunComesFrom(s, q, lun.(locked := false))
  {
  }

  lemma GrownTransitive(s: State, t: State, u: State, q: Request)
    requires Grown(s, t, q) && Grown(t, u, q)
    ensures Grown(s, u, q)
  {
    hide LunComesFrom, Backing;
    var b := Backing(q);
    if b !in s.luns && b in u.luns {
      if b in t.luns {
        UnlockKeepsOrigin(s, q, t.luns[b]);
      } else {
        LunOriginStays(s, t, q, u.luns[b]);
      }
    }
  }

  lemma GrownReflexive(s: State, q: Request)
    ensures Grown(s, s, q)
  {
  }

  lemma SettledAfter(s: State, t: State, q: Request)
    requires Settled(s, q) && Progress(s, t, q)
    ensures Settled(t, q)
  {
  }

  lemma StepsTransitive(s: State, t: State, u: State, q: Request)
    requires Steps(s, t, q) && Steps(t, u, q)
    ensures Steps(s, u, q)
  {
    GrownTransitive(s, t, u, q);
    if Tidy(s, q) {
      TidyAfter(s, t, q);
      ProgressTransitive(s, t, u, q);
    }
    hide Tidy, Progress, Grown, WellFormed;
  }

  lemma SettledTransitive(s: State, t: State, u: State, q: Request)
    requires SettledSteps(s, t, q) && SettledSteps(t, u, q)
    ensures SettledSteps(s, u, q)
  {
    hide Tidy, Progress, Grown, WellFormed;
    GrownTransitive(s, t, u, q);
    if Settled(s, q) {
      SettledAfter(s, t, q);
      ProgressTransitive(s, t, u, q);
    }
  }

  lemma StepsThenSettled(s: State, t: State, u: State, q: Request)
    requires Steps(s, t, q) && SettledSteps(t, u, q)
    requires Tidy(s, q) ==> Settled(t, q)
    ensures Steps(s, u, q)
  {
    hide Tidy, Progress, Grown, WellFormed;
    GrownTransitive(s, t, u, q);
    if Tidy(s, q) {
      ProgressTransitive(s, t, u, q);
    }
  }

  lemma NoSteps(s: State, q: Request)
    requires WellFormed(s)
    ensures Steps(s, s, q) && SettledSteps(s, s, q)
  {
    hide Tidy, Progress, Grown, WellFormed;
    GrownReflexive(s, q);
    if Tidy(s, q) {
      ProgressReflexive(s, q);
    }
  }

  lemma NewLunSteps(s: State, q: Request, size: uint64, locked: bool, location: string, data: nat)
    requires WellFormed(s) && Backing(q) !in s.luns
    requires LunComesFrom(s, q, Lun(Backing(q), s.nextId, size, locked, location, data))
    requires (q.source.Blank? ==> !locked)
    ensures Steps(s, AddLun(s, Backing(q), size, locked, location, data), q)
  {
    hide WellFormed, Backing, Tidy, Progress, LunComesFrom;
    WellFormedNewLun(s, Backing(q), size, locked, location, data);
    if Tidy(s, q) {
      NewLunProgress(s, q, size, locked, location, data);
    }
  }

  lemma UnlockSteps(s: State, q: Request)
    requires WellFormed(s) && Backing(q) in s.luns
    ensures Steps(s, SetLun(s, Backing(q), s.luns[Backing(q)].(locked := false)), q)
  {
    hide WellFormed, Backing;
    WellFormedUnlocked(s, Backing(q));
    if Tidy(s, q) {
      UnlockProgress(s, q);
    }
    hide Tidy, Progress;
  }

  lemma NewTargetSettled(s: State, q: Request)
    requires WellFormed(s) && Backing(q) !in s.targets
    ensures SettledSteps(s, AddTarget(s, Backing(q)), q)
  {
    hide WellFormed, Backing, Tidy, Progress, LunComesFrom;
    WellFormedNewTarget(s, Backing(q));
    if Tidy(s, q) {
      NewTargetProgress(s, q);
    }
  }

  lemma SessionsSettled(s: State, q: Request)
    requires WellFormed(s) && Backing(q) in s.targets && q.multi
    ensures SettledSteps(s, SetTarget(s, Backing(q), s.targets[Backing(q)].(maxSessions := 0)), q)
  {
    hide WellFormed, Backing, Tidy, Progress, LunComesFrom;
    WellFormedSessions(s, Backing(q));
    if Tidy(s, q) {
      SessionsProgress(s, q);
    }
  }

  lemma MappingSettled(s: State, q: Request, uuid: nat)
    requires WellFormed(s) && Backing(q) in s.targets && (q.multi ==> s.targets[Backing(q)].maxSessions == 0)
    requires uuid < s.nextId && Backing(q) in s.luns && uuid == s.luns[Backing(q)].uuid
    ensures var t := SetTarget(s, Backing(q), Mapped(s.targets[Backing(q)], uuid));
            SettledSteps(s, t, q) && (Settled(s, q) ==> Complete(t, q))
  {
    hide WellFormed, Backing, Progress, Tidy;
    WellFormedMapped(s, Backing(q), uuid);
    if Settled(s, q) {
      SettledIsReady(s, q);
      MappingProgress(s, q);
    }
  }

  lemma SettledIsReady(s: State, q: Request)
    requires Settled(s, q) && Backing(q) in s.targets && (q.multi ==> s.targets[Backing(q)].maxSessions == 0)
    ensures Tidy(s, q) && Ready(s, q)
  {
  }

  /** The LUN of the request's name is there and its target maps it. */
  ghost predicate IsMapped(s: State, q: Request) {
    var b := Backing(q);
    && b in s.luns && b in s.targets && s.luns[b].uuid in s.targets[b].mapped
    && (q.multi ==> s.targets[b].maxSessions == 0)
  }

  lemma TidyMappedIsComplete(s: State, q: Request)
    requires Tidy(s, q) && IsMapped(s, q)
    ensures Complete(s, q)
  {
  }

  // ---------- Attempts ----------

  datatype Error = OutOfRange | NotFound | BadArgument | Internal | Exists

  datatype Outcome = Ok(id: nat, capacity: int64, protocol: Protocol) | Err(error: Error)

  /** The source is there and of the size asked for; there is nothing to ask of it for a new volume. */
  ghost predicate LunSourceFits(s: State, q: Request) {
    match q.source
    case Blank => true
    case FromVolume(id) => exists v :: VisibleIscsi(s, v) && v.id == id && v.sizeInBytes == q.size
    case FromSnapshot(id) =>
      && id in s.snapshots && s.snapshots[id].protocol == Iscsi && s.snapshots[id].size == q.size
      && (q.location == "" || q.location == s.snapshots[id].rootPath)
  }

  /** The request's LUN is there and its copying is done. */
  ghost predicate IsCopied(s: State, q: Request) {
    Backing(q) in s.luns && !s.luns[Backing(q)].locked
  }

  /** One CreateVolume call for an iSCSI request, from state `s` to state `t`; `clean` says that no
      call to the NAS failed. */
  ghost predicate Attempt(s: State, t: State, q: Request, clean: bool, r: Outcome) {
    && Progress(s, t, q)
    && (r.Ok? ==> Complete(t, q) && r == Ok(t.luns[Backing(q)].uuid, q.size, Iscsi))
    && (clean && (q.source.Blank? || Complete(s, q)) ==> r.Ok?)
    && (clean && IsCopied(s, q) && LunSourceFits(s, q) ==> r.Ok?)
  }

  lemma TidyAfter(s: State, t: State, q: Request)
    requires Progress(s, t, q)
    ensures Tidy(t, q) && WellFormed(t)
    ensures q.source.Blank? && Backing(q) in t.luns ==> !t.luns[Backing(q)].locked
  {
  }

  lemma ProgressParts(s: State, t: State, q: Request)
    requires Progress(s, t, q)
    ensures Grown(s, t, q) && (Complete(s, q) ==> t == s) && (Complete(t, q) ==> Ready(t, q))
  {
  }

  // ---------- Runs of identical calls ----------

  /** A call of a run: the NAS before and after it, whether every call to the NAS worked, and the reply. */
  datatype Call = Call(before: State, after: State, clean: bool, result: Outcome)

  /** Between two calls others may do anything to other LUNs, targets and shares, short of taking one of the
      request's names or mapping its LUN, and the copying of a cloned LUN may finish. */
  ghost predicate Between(s: State, t: State, q: Request) {
    var b := Backing(q);
    && Sound(t) && NoAlias(t, q)
    && (b in t.luns <==> b in s.luns)
    && (b in s.luns ==> t.luns[b] == s.luns[b] || t.luns[b] == s.luns[b].(locked := false))
    && (b in t.targets <==> b in s.targets)
    && (b in s.targets ==> t.targets[b] == s.targets[b])
    && (b in t.luns ==> forall n :: n in t.targets && t.luns[b].uuid in t.targets[n].mapped ==> n == b)
  }

  /** The NAS meets what a call asks for, and nothing of the request's is out of order. */
  ghost predicate Fit(s: State, q: Request) {
    Sound(s) && Tidy(s, q) && NoAlias(s, q)
  }

  /** What Provisioning.ControllerCreateVolume promises of each call, one after the other. */
  ghost predicate Calls(calls: seq<Call>, q: Request) {
    && (forall i :: 0 <= i < |calls| && Fit(calls[i].before, q) ==>
          Attempt(calls[i].before, calls[i].after, q, calls[i].clean, calls[i].result))
    && (forall i, j :: 0 <= i < |calls| && j == i + 1 < |calls| ==> Between(calls[i].after, calls[j].before, q))
  }

  /** The request's own LUN and target are the same. */
  ghost predicate SameOwn(s: State, t: State, q: Request) {
    var b := Backing(q);
    && b in s.luns && b in t.luns && t.luns[b] == s.luns[b]
    && b in s.targets && b in t.targets && t.targets[b] == s.targets[b]
  }

  lemma BetweenKeeps(s: State, t: State, q: Request)
    requires Tidy(s, q) && Between(s, t, q)
    ensures Fit(t, q)
    ensures Complete(s, q) ==> Complete(t, q) && SameOwn(s, t, q)
  {
  }

  /** Whatever the calls before ended in, every call of the run is an attempt on a NAS whose own objects are in
      order. */
  lemma {:induction false} EveryCallIsAttempt(calls: seq<Call>, q: Request, i: nat)
    requires Calls(calls, q) && i < |calls| && Fit(calls[0].before, q)
    ensures Fit(calls[i].before, q)
    ensures Attempt(calls[i].before, calls[i].after, q, calls[i].clean, calls[i].result)
    ensures Tidy(calls[i].after, q) && Grown(calls[i].before, calls[i].after, q)
    ensures Complete(calls[i].before, q) ==> calls[i].after == calls[i].before
  {
    hide Tidy, NoAlias, Progress, Between, Complete, Grown, Sound;
    if i > 0 {
      EveryCallIsAttempt(calls, q, i - 1);
      BetweenKeeps(calls[i - 1].after, calls[i].before, q);
    }
    TidyAfter(calls[i].before, calls[i].after, q);
    ProgressParts(calls[i].before, calls[i].after, q);
  }

  lemma {:induction false} OwnStays(calls: seq<Call>, q: Request, i: nat, j: nat)
    requires Calls(calls, q) && i <= j < |calls| && Fit(calls[0].before, q)
    requires Complete(calls[i].after, q)
    ensures Complete(calls[j].after, q) && SameOwn(calls[i].after, calls[j].after, q)
    ensures i < j ==> Complete(calls[j].before, q)
    decreases j, j - i
  {
    hide Tidy, NoAlias, Attempt, Between, Calls, Sound;
    if i < j {
      OwnStays(calls, q, i, j - 1);
      EveryCallIsAttempt(calls, q, j - 1);
      EveryCallIsAttempt(calls, q, j);
      CallsFollow(calls, q, j);
      BetweenKeeps(calls[j - 1].after, calls[j].before, q);
    }
  }

  lemma CallsFollow(calls: seq<Call>, q: Request, j: nat)
    requires Calls(calls, q) && 0 < j < |calls|
    ensures Between(calls[j - 1].after, calls[j].before, q)
  {
    hide Between, Attempt, Fit;
  }

  /** Retries converge. Over any number of calls, each failing anywhere or succeeding: every call leaves LUNs,
      targets and shares of other names alone. A success leaves the one LUN of that name, unlocked, mapped to
      its target, and returns its id and the requested capacity. No later call changes anything at all; the LUN
      and its target stay as they are; every further success returns the same; and a later call in which nothing
      fails does succeed. */
  lemma RetriesConverge(calls: seq<Call>, q: Request, i: nat, j: nat)
    requires Calls(calls, q) && i <= j < |calls| && calls[i].result.Ok?
    requires Fit(calls[0].before, q)
    ensures Complete(calls[i].after, q) && Ready(calls[i].after, q)
    ensures calls[i].result == Ok(calls[i].after.luns[Backing(q)].uuid, q.size, Iscsi)
    ensures SameOwn(calls[i].after, calls[j].after, q)
    ensures i < j ==> calls[j].after == calls[j].before
    ensures calls[j].clean || calls[j].result.Ok? ==> calls[j].result == calls[i].result
    ensures Grown(calls[j].before, calls[j].after, q)
  {
    hide Progress, Tidy, NoAlias, Complete, Ready, Grown, Calls, Sound;
    EveryCallIsAttempt(calls, q, i);
    EveryCallIsAttempt(calls, q, j);
    ProgressParts(calls[i].before, calls[i].after, q);
    OwnStays(calls, q, i, j);
  }

  lemma StaysCopied(s: State, t: State, q: Request)
    requires IsCopied(s, q) && (Grown(s, t, q) || Between(s, t, q))
    ensures IsCopied(t, q)
  {
  }

  /** Once the clone has been unlocked, every later call in which nothing fails succeeds, as long as the source
      is there. */
  lemma {:induction false} OnceCopiedSucceeds(calls: seq<Call>, q: Request, i: nat, j: nat)
    requires Calls(calls, q) && i <= j < |calls| && Fit(calls[0].before, q) && IsCopied(calls[i].before, q)
    ensures IsCopied(calls[j].before, q)
    ensures calls[j].clean && LunSourceFits(calls[j].before, q) ==> calls[j].result.Ok?
    decreases j, j - i
  {
    hide Calls, Fit, Grown, Between, IsCopied, LunSourceFits, Progress;
    EveryCallIsAttempt(calls, q, j);
    if i < j {
      OnceCopiedSucceeds(calls, q, i, j - 1);
      EveryCallIsAttempt(calls, q, j - 1);
      CallsFollow(calls, q, j);
      StaysCopied(calls[j - 1].before, calls[j - 1].after, q);
      StaysCopied(calls[j - 1].after, calls[j].before, q);
    }
  }

  /** A volume shows up in lookups only after its clone is unlocked and its session setting applied. */
  lemma VisibleIsReady(s: State, q: Request, v: Volume)
    requires Tidy(s, q) && VisibleIscsi(s, v) && v.name == Backing(q)
    ensures Complete(s, q) && Ready(s, q)
    ensures v == LunVolume(s.luns[Backing(q)]) && !v.lun.locked
  {
    var n, tn :| VisibleOn(s, n, tn, v);
    assert n == Backing(q);
  }

  lemma UntouchedIsTidy(s: State, q: Request)
    requires Untouched(s, q)
    ensures Tidy(s, q)
  {
  }

  /** For names of at most 24 bytes the only alias to exclude is a share of that very name. */
  lemma ShortNamesHaveNoAlias(s: State, q: Request)
    requires |q.volName| <= 24 && Backing(q) !in s.shares
    ensures NoAlias(s, q)
  {
    ShortNames(q.volName);
  }

  lemma GrownKeepsNoAlias(s: State, t: State, q: Request)
    requires NoAlias(s, q) && Grown(s, t, q)
    ensures NoAlias(t, q)
  {
  }
}
