/** Two requests with different names that get one volume. */
module SharedNames {
  import opened Capacity
  import opened Nas
  import opened Volumes
  import opened Retries
  import opened ShareRetries
  import opened Provisioning

  // ---------- SMB ----------

  /** The names lead to one share: they agree on the first 24 bytes and are the same or both at least that long. */
  predicate OneShare(q: Request, q': Request) {
    q.volName == q'.volName ||
    (|q.volName| >= 24 && |q'.volName| >= 24 && q.volName[..24] == q'.volName[..24])
  }

  /** After a success for `q`, a call for `q'` in which nothing fails returns the same id exactly when the names lead to
      one share and the sizes round to the same MiB. */
  lemma OneShareExactly(s: State, t: State, u: State, q: Request, q': Request, clean: bool, r: Outcome, r': Outcome)
    requires SmbAttempt(s, t, q, clean, r) && r.Ok? && SmbAttempt(t, u, q', true, r')
    ensures r'.Ok? && r'.id == r.id <==> OneShare(q, q') && BytesToMBCeil(q'.size) == BytesToMBCeil(q.size)
  {
    hide GenShareName, BytesToMBCeil, BytesToMB, MBToBytes, ComesFrom, SourceFits;
    ShareAliasExactly(q.volName, q'.volName);
    var n, n' := ShareName(q), ShareName(q');
    if r'.Ok? && n' != n {
      assert n in u.shares && u.shares[n] == t.shares[n];
      SharesDiffer(u, n, n');
    }
  }

  lemma SharesDiffer(s: State, m: string, n: string)
    requires WellFormed(s) && m in s.shares && n in s.shares && m != n
    ensures s.shares[m].uuid != s.shares[n].uuid
  {
  }

  /** A share of one request is no alias for another. */
  lemma NoAliasAfter(s: State, t: State, q: Request, q': Request)
    requires ShareProgress(s, t, q) && SmbNoAlias(s, q')
    ensures SmbNoAlias(t, q')
  {
    hide WellFormed, ComesFrom;
    if GenLunName(q'.volName) != ShareName(q') {
      assert |GenLunName(q'.volName)| > 32 >= |ShareName(q)|;
    }
  }

  // ---------- iSCSI ----------

  /** The longer name `q'` is cut to the name of `q`, and nothing else answers to it. */
  ghost predicate TakesLunOf(s: State, q: Request, q': Request) {
    && |q'.volName| > 24 && q.volName == q'.volName[..24]
    && forall v :: Visible(s, v) && IsNamed(q'.volName, v.name) ==> v.name == Backing(q)
  }

  lemma OneLun(s: State, t: State, q: Request, q': Request)
    requires Progress(s, t, q) && NoAlias(t, q) && Complete(t, q) && TakesLunOf(s, q, q')
    ensures !NameIsFree(t, q')
    ensures forall v :: Visible(t, v) && IsNamed(q'.volName, v.name) ==> v == LunVolume(t.luns[Backing(q)])
  {
    hide IsNamed, WellFormed, Visible, Tidy;
    LunAliasExactly(q'.volName, q.volName);
    TidyAfter(s, t, q);
    CompleteIsVisible(t, q);
    forall v | Visible(t, v) && IsNamed(q'.volName, v.name)
      ensures v == LunVolume(t.luns[Backing(q)])
    {
      OldOrOwn(s, t, q, v);
    }
  }

  /** What an attempt leaves visible was visible before under another name, or is the request's own LUN. */
  lemma OldOrOwn(s: State, t: State, q: Request, v: Volume)
    requires Progress(s, t, q) && Complete(t, q) && NoAlias(t, q) && Visible(t, v)
    ensures v == LunVolume(t.luns[Backing(q)]) || (Visible(s, v) && v.name != Backing(q))
  {
    var b := Backing(q);
    if VisibleIscsi(t, v) {
      var n, tn :| VisibleOn(t, n, tn, v);
      if n != b {
        assert tn != b;
        assert VisibleOn(s, n, tn, v);
      }
    } else {
      assert VisibleSmb(s, v);
    }
  }

  // ---------- Two calls ----------

  /** One call after another. For SMB the two get the same id exactly when their names lead to one share and their sizes
      round to the same MiB. For iSCSI a name that is cut to the first one, with nothing else in its way, gets
      the first volume if the sizes are the same, and AlreadyExists otherwise. */
  method CreateTwo(dsm: Dsm, q: Request, q': Request) returns (r: Outcome, r': Outcome, ghost clean: bool)
    requires Sound(dsm.Now()) && q.size >= UNIT_GB && q'.size >= UNIT_GB
    requires q.protocol == q'.protocol && Orderly(dsm.Now(), q) && (q.protocol == Smb ==> SmbNoAlias(dsm.Now(), q'))
    modifies dsm
    ensures q.protocol == Smb && r.Ok? && clean ==>
              (r'.Ok? && r'.id == r.id <==> OneShare(q, q') && BytesToMBCeil(q'.size) == BytesToMBCeil(q.size))
    ensures q.protocol == Iscsi && r.Ok? && clean && TakesLunOf(old(dsm.Now()), q, q') ==>
              r' == if q'.size == q.size then r else Err(Exists)
  {
    hide WellFormed, Tidy, NoAlias, SmbNoAlias, Steps, ShareProgress, Progress, Visible, IsNamed, NameIsFree,
      RecordOf, BytesToMBCeil, BytesToMB, MBToBytes, OneShare, TakesLunOf, GenShareName, GenLunName, SmbAttempt;
    ghost var s := dsm.Now();
    ghost var faults := dsm.faults;
    r := ControllerCreateVolume(dsm, q);
    ghost var t := dsm.Now();
    ghost var first := dsm.faults == faults;
    AttemptCanBeRepeated(s, t, q);
    if q.protocol == Smb {
      NoAliasAfter(s, t, q, q');
    }
    faults := dsm.faults;
    r' := ControllerCreateVolume(dsm, q');
    clean := dsm.faults == faults;
    if q.protocol == Smb && r.Ok? && clean {
      OneShareExactly(s, t, dsm.Now(), q, q', first, r, r');
    }
    if q.protocol == Iscsi && r.Ok? && clean && TakesLunOf(s, q, q') {
      OneLun(s, t, q, q');
      OwnSize(t, q);
    }
  }

  lemma OwnSize(s: State, q: Request)
    requires Tidy(s, q) && Complete(s, q) && q.size > 0
    ensures ToInt64(s.luns[Backing(q)].size) == q.size
  {
  }
}
