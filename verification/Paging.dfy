/** Paged listings: ListVolumes and ListSnapshots of the CSI controller, and what a client
    that follows the tokens gets to see. */
module Paging {

  // ---------- Go's order on strings ----------

  predicate Less(a: string, b: string) {
    if b == [] then false
    else if a == [] then true
    else a[0] < b[0] || (a[0] == b[0] && Less(a[1..], b[1..]))
  }

  lemma {:induction false} LessTransitive(a: string, b: string, c: string)
    requires Less(a, b) && Less(b, c)
    ensures Less(a, c)
  {
    if a != [] && a[0] == b[0] && b[0] == c[0] {
      LessTransitive(a[1..], b[1..], c[1..]);
    }
  }

  lemma {:induction false} LessTotal(a: string, b: string)
    ensures !(Less(a, b) && Less(b, a))
    ensures a == b || Less(a, b) || Less(b, a)
    ensures !Less(a, a)
    decreases |a| + |b|
  {
    if a != [] && b != [] {
      LessTotal(a[1..], b[1..]);
      assert a == [a[0]] + a[1..] && b == [b[0]] + b[1..];
      if a[0] == b[0] && a[1..] == b[1..] {
        assert a == b;
      }
      LessIrreflexive(a);
    } else if a != [] {
      LessIrreflexive(a);
    }
  }

  lemma {:induction false} LessIrreflexive(a: string)
    ensures !Less(a, a)
  {
    if a != [] {
      LessIrreflexive(a[1..]);
    }
  }

  /** The order of the first place at which the strings differ, a proper beginning coming before the whole. */
  lemma {:induction false} LessExactly(a: string, b: string)
    ensures Less(a, b) <==>
            exists k: nat :: k <= |a| && k < |b| && a[..k] == b[..k] && (k == |a| || a[k] < b[k])
  {
    if a != [] && b != [] && a[0] == b[0] {
      LessExactly(a[1..], b[1..]);
      if Less(a[1..], b[1..]) {
        var k: nat :| k <= |a[1..]| && k < |b[1..]| && a[1..][..k] == b[1..][..k] &&
                      (k == |a[1..]| || a[1..][k] < b[1..][k]);
        assert a[..k + 1] == [a[0]] + a[1..][..k] && b[..k + 1] == [b[0]] + b[1..][..k];
      }
      if k: nat :| k <= |a| && k < |b| && a[..k] == b[..k] && (k == |a| || a[k] < b[k]) {
        assert k > 0;
        assert a[1..][..k - 1] == a[..k][1..] && b[1..][..k - 1] == b[..k][1..];
      }
    } else if b != [] {
      assert a[..0] == b[..0];
      if k: nat :| k <= |a| && k < |b| && a[..k] == b[..k] && (k == |a| || a[k] < b[k]) {
        assert k > 0 ==> a[..k][0] == b[..k][0];
      }
    }
  }

  // ---------- Sorting ----------

  ghost predicate SortedBy<T>(key: T -> string, s: seq<T>) {
    forall i, j :: 0 <= i < j < |s| ==> !Less(key(s[j]), key(s[i]))
  }

  /** `s` is a result sort.Sort may give for `items`: ascending by key, in some order among equal keys. */
  ghost predicate IsSortOf<T>(key: T -> string, s: seq<T>, items: seq<T>) {
    SortedBy(key, s) && multiset(s) == multiset(items)
  }

  /** Items with equal keys are the same item. */
  ghost predicate KeysIdentify<T(!new)>(key: T -> string, items: seq<T>) {
    forall x, y :: x in items && y in items && key(x) == key(y) ==> x == y
  }

  ghost predicate NoRepeats<T>(items: seq<T>) {
    forall x :: x in items ==> multiset(items)[x] == 1
  }

  lemma SameMembers<T>(s: seq<T>, t: seq<T>)
    requires multiset(s) == multiset(t)
    ensures |s| == |t| && forall x :: x in s <==> x in t
  {
    assert |s| == |multiset(s)| == |multiset(t)| == |t|;
    assert forall x :: x in s <==> x in multiset(s);
    assert forall x :: x in t <==> x in multiset(t);
  }

  lemma RepeatCounts<T>(s: seq<T>, i: nat, j: nat)
    requires i < j < |s| && s[i] == s[j]
    ensures multiset(s)[s[i]] >= 2
  {
    assert s == s[..j] + s[j..];
    assert s[..j][i] == s[i] && s[j..][0] == s[i];
    assert s[i] in multiset(s[..j]) && s[i] in multiset(s[j..]);
  }

  lemma SameHead<T(!new)>(key: T -> string, s: seq<T>, t: seq<T>)
    requires SortedBy(key, s) && SortedBy(key, t) && multiset(s) == multiset(t) && KeysIdentify(key, s)
    requires s != [] && t != []
    ensures s[0] == t[0]
  {
    hide Less;
    SameMembers(s, t);
    assert s[0] in t && t[0] in s;
    var i :| 0 <= i < |t| && t[i] == s[0];
    var j :| 0 <= j < |s| && s[j] == t[0];
    LessTotal(key(s[0]), key(t[0]));
  }

  lemma TailMembers<T>(s: seq<T>, t: seq<T>)
    requires multiset(s) == multiset(t) && s != [] && t != [] && s[0] == t[0]
    ensures multiset(s[1..]) == multiset(t[1..])
    ensures forall x :: x in s[1..] ==> x in s
  {
    assert s == [s[0]] + s[1..] && t == [t[0]] + t[1..];
    assert multiset(s[1..]) == multiset(s) - multiset{s[0]};
    assert multiset(t[1..]) == multiset(t) - multiset{t[0]};
  }

  /** When keys identify the items there is only one sorted order. */
  lemma {:induction false} SortIsUnique<T(!new)>(key: T -> string, s: seq<T>, t: seq<T>)
    requires SortedBy(key, s) && SortedBy(key, t) && multiset(s) == multiset(t) && KeysIdentify(key, s)
    ensures s == t
  {
    hide Less;
    SameMembers(s, t);
    if s != [] {
      SameHead(key, s, t);
      TailMembers(s, t);
      SortIsUnique(key, s[1..], t[1..]);
    }
  }

  /** Any run of sort.Sort: insertion is as good as another, the contract is all that is used. */
  method Sort<T>(key: T -> string, items: seq<T>) returns (s: seq<T>)
    ensures IsSortOf(key, s, items)
  {
    hide Less;
    s := [];
    for i := 0 to |items|
      invariant SortedBy(key, s) && multiset(s) == multiset(items[..i])
    {
      var x := items[i];
      var k := |s|;
      while k > 0 && Less(key(x), key(s[k - 1]))
        invariant 0 <= k <= |s|
        invariant forall j :: k <= j < |s| ==> Less(key(x), key(s[j]))
      {
        k := k - 1;
      }
      InsertSorted(key, s, k, x);
      assert items[..i + 1] == items[..i] + [x];
      assert s == s[..k] + s[k..];
      s := s[..k] + [x] + s[k..];
    }
    assert items[..|items|] == items;
  }

  lemma InsertSorted<T>(key: T -> string, s: seq<T>, k: nat, x: T)
    requires SortedBy(key, s) && k <= |s|
    requires k > 0 ==> !Less(key(x), key(s[k - 1]))
    requires forall j :: k <= j < |s| ==> Less(key(x), key(s[j]))
    ensures SortedBy(key, s[..k] + [x] + s[k..])
  {
    forall j | 0 <= j < k
      ensures !Less(key(x), key(s[j]))
    {
      if Less(key(x), key(s[j])) {
        LessTotal(key(s[j]), key(s[k - 1]));
        if j < k - 1 && Less(key(s[j]), key(s[k - 1])) {
          LessTransitive(key(x), key(s[j]), key(s[k - 1]));
        }
      }
    }
    forall j | k <= j < |s|
      ensures !Less(key(s[j]), key(x))
    {
      LessTotal(key(x), key(s[j]));
    }
  }

  // ---------- One page ----------

  datatype Listing<T> = InvalidArgument | Aborted | Page(entries: seq<T>, next: string)

  function Filter<T>(keep: T -> bool, s: seq<T>): seq<T> {
    if s == [] then [] else Filter(keep, s[..|s| - 1]) + if keep(s[|s| - 1]) then [s[|s| - 1]] else []
  }

  /** Where the listing resumes: at the item the token names, at the start for the empty token,
      and nowhere (|s|) for a token that names no item. */
  function Resume<T>(id: T -> string, s: seq<T>, token: string): (k: nat)
    ensures k <= |s|
    ensures token == "" ==> k == 0
    ensures token != "" && k < |s| ==> id(s[k]) == token
    ensures token != "" ==> forall i :: 0 <= i < k ==> id(s[i]) != token
  {
    if token == "" || s == [] || id(s[0]) == token then 0 else 1 + Resume(id, s[1..], token)
  }

  /** The page a request gets from a sorted listing. */
  function PageOf<T>(id: T -> string, keep: T -> bool, s: seq<T>, token: string, limit: int): Listing<T> {
    if limit < 0 then InvalidArgument
    else
      var k := Resume(id, s, token);
      if token != "" && k == |s| then Aborted
      else
        var kept := Filter(keep, s[k..]);
        if 0 < limit < |kept| then Page(kept[..limit], id(kept[limit])) else Page(kept, "")
  }

  lemma {:induction false} FilterConcat<T>(keep: T -> bool, s: seq<T>, t: seq<T>)
    ensures Filter(keep, s + t) == Filter(keep, s) + Filter(keep, t)
  {
    if t == [] {
      assert s + t == s;
    } else {
      FilterConcat(keep, s, t[..|t| - 1]);
      assert (s + t)[..|s + t| - 1] == s + t[..|t| - 1];
    }
  }

  lemma FilterStep<T>(keep: T -> bool, s: seq<T>, from: nat, i: nat)
    requires from <= i < |s|
    ensures Filter(keep, s[from..i + 1]) == Filter(keep, s[from..i]) + if keep(s[i]) then [s[i]] else []
  {
    assert s[from..i + 1][..i - from] == s[from..i];
  }

  lemma FilterSplit<T>(keep: T -> bool, s: seq<T>, from: nat, i: nat)
    requires from <= i <= |s|
    ensures Filter(keep, s[from..]) == Filter(keep, s[from..i]) + Filter(keep, s[i..])
  {
    assert s[from..] == s[from..i] + s[i..];
    FilterConcat(keep, s[from..i], s[i..]);
  }

  /** The loop shared by the two listing calls, on the sorted items. */
  method ListFrom<T>(id: T -> string, keep: T -> bool, s: seq<T>, startingToken: string, maxEntries: int)
      returns (r: Listing<T>)
    requires maxEntries >= 0
    ensures r == PageOf(id, keep, s, startingToken, maxEntries)
  {
    hide Filter, Resume;
    var entries: seq<T> := [];
    var nextToken := "";
    var pagingSkip := startingToken != "";
    var count := 0;
    ghost var start := Resume(id, s, startingToken);
    FilterNone(keep, s, start);
    for i := 0 to |s|
      invariant nextToken == "" && count == |entries|
      invariant pagingSkip <==> startingToken != "" && i <= start
      invariant entries == if i <= start then [] else Filter(keep, s[start..i])
      invariant maxEntries > 0 ==> count <= maxEntries
    {
      if id(s[i]) == startingToken {
        pagingSkip := false;
      }
      if pagingSkip {
        continue;
      }
      FilterStep(keep, s, start, i);
      if !keep(s[i]) {
        continue;
      }
      if maxEntries > 0 && count >= maxEntries {
        nextToken := id(s[i]);
        FilterSplit(keep, s, start, i + 1);
        return Page(entries, nextToken);
      }
      entries := entries + [s[i]];
      count := count + 1;
    }
    if pagingSkip {
      return Aborted;
    }
    assert s[start..|s|] == s[start..];
    return Page(entries, nextToken);
  }

  lemma FilterNone<T>(keep: T -> bool, s: seq<T>, k: nat)
    requires k <= |s|
    ensures Filter(keep, s[k..k]) == []
  {
  }

  // ---------- The two listing calls ----------

  datatype VolumeEntry = VolumeEntry(volumeId: string, sizeInBytes: int, dsmIp: string, protocol: string)

  datatype SnapshotEntry = SnapshotEntry(uuid: string, parentUuid: string, sizeInBytes: int, createTime: int,
                                         status: string)

  function VolumeId(v: VolumeEntry): string {
    v.volumeId
  }

  function SnapshotId(s: SnapshotEntry): string {
    s.uuid
  }

  /** Snapshots are sorted by parent and then by their own id, as one string. */
  function SnapshotKey(s: SnapshotEntry): string {
    s.parentUuid + "/" + s.uuid
  }

  function KeepAll(v: VolumeEntry): bool {
    true
  }

  function KeepId(snapshotId: string): SnapshotEntry -> bool {
    (s: SnapshotEntry) => snapshotId == "" || s.uuid == snapshotId
  }

  /** What any page shows of the items, whichever way they were sorted: a negative limit and a token that names no item
      are refused; only wanted items are on the page, no more than the limit, and fewer only on the last page; and
      without token and limit all of them are. */
  ghost predicate PageOver<T(!new)>(id: T -> string, keep: T -> bool, items: seq<T>, token: string, limit: int,
                                    r: Listing<T>) {
    && (r.InvalidArgument? <==> limit < 0)
    && (r.Aborted? <==> limit >= 0 && token != "" && forall x :: x in items ==> id(x) != token)
    && (r.Page? ==> forall x :: x in r.entries ==> x in items && keep(x))
    && (r.Page? && limit > 0 ==> |r.entries| <= limit && (|r.entries| < limit ==> r.next == ""))
    && (r.Page? && limit == 0 ==> r.next == "")
    && (r.Page? && limit == 0 && token == "" ==>
          forall x :: multiset(r.entries)[x] == if keep(x) then multiset(items)[x] else 0)
  }

  lemma PageIsOver<T(!new)>(id: T -> string, key: T -> string, keep: T -> bool, items: seq<T>, sorted: seq<T>,
                            token: string, limit: int)
    requires IsSortOf(key, sorted, items)
    ensures PageOver(id, keep, items, token, limit, PageOf(id, keep, sorted, token, limit))
  {
    hide Filter, IsSortOf;
    SortMembers(key, sorted, items);
    SortCounts(key, sorted, items);
    var k, r := Resume(id, sorted, token), PageOf(id, keep, sorted, token, limit);
    if r.Page? {
      forall x | x in r.entries
        ensures x in items && keep(x)
      {
        FilterMembers(keep, sorted[k..], x);
      }
      if limit == 0 && token == "" {
        assert sorted[0..] == sorted;
        forall x
          ensures multiset(r.entries)[x] == if keep(x) then multiset(items)[x] else 0
        {
          FilterCount(keep, sorted, x);
        }
      }
    }
  }

  lemma SortCounts<T>(key: T -> string, s: seq<T>, items: seq<T>)
    requires IsSortOf(key, s, items)
    ensures multiset(s) == multiset(items)
  {
  }

  method ListVolumes(infos: seq<VolumeEntry>, maxEntries: int, startingToken: string) returns (r: Listing<VolumeEntry>)
    ensures exists sorted :: IsSortOf(VolumeId, sorted, infos) &&
                             r == PageOf(VolumeId, KeepAll, sorted, startingToken, maxEntries)
    ensures PageOver(VolumeId, v => true, infos, startingToken, maxEntries, r)
  {
    hide PageOf, IsSortOf, PageOver;
    var sorted := Sort(VolumeId, infos);
    PageIsOver(VolumeId, VolumeId, KeepAll, infos, sorted, startingToken, maxEntries);
    AllWanted(infos, startingToken, maxEntries, PageOf(VolumeId, KeepAll, sorted, startingToken, maxEntries));
    NegativeLimit(VolumeId, KeepAll, sorted, startingToken, maxEntries);
    if 0 > maxEntries {
      r := InvalidArgument;
    } else {
      r := ListFrom(VolumeId, KeepAll, sorted, startingToken, maxEntries);
    }
  }

  method ListSnapshots(infos: seq<SnapshotEntry>, snapshotId: string, maxEntries: int, startingToken: string)
      returns (r: Listing<SnapshotEntry>)
    ensures exists sorted :: IsSortOf(SnapshotKey, sorted, infos) &&
                             r == PageOf(SnapshotId, KeepId(snapshotId), sorted, startingToken, maxEntries)
    ensures PageOver(SnapshotId, (s: SnapshotEntry) => snapshotId == "" || s.uuid == snapshotId, infos,
                     startingToken, maxEntries, r)
  {
    hide PageOf, IsSortOf, PageOver;
    var sorted := Sort(SnapshotKey, infos);
    PageIsOver(SnapshotId, SnapshotKey, KeepId(snapshotId), infos, sorted, startingToken, maxEntries);
    SameWanted(snapshotId, infos, startingToken, maxEntries,
               PageOf(SnapshotId, KeepId(snapshotId), sorted, startingToken, maxEntries));
    NegativeLimit(SnapshotId, KeepId(snapshotId), sorted, startingToken, maxEntries);
    if 0 > maxEntries {
      r := InvalidArgument;
    } else {
      r := ListFrom(SnapshotId, KeepId(snapshotId), sorted, startingToken, maxEntries);
    }
  }

  lemma NegativeLimit<T>(id: T -> string, keep: T -> bool, s: seq<T>, token: string, limit: int)
    ensures limit < 0 ==> PageOf(id, keep, s, token, limit) == InvalidArgument
  {
  }

  lemma AllWanted(infos: seq<VolumeEntry>, token: string, limit: int, r: Listing<VolumeEntry>)
    requires PageOver(VolumeId, KeepAll, infos, token, limit, r)
    ensures PageOver(VolumeId, v => true, infos, token, limit, r)
  {
  }

  lemma SameWanted(snapshotId: string, infos: seq<SnapshotEntry>, token: string, limit: int, r: Listing<SnapshotEntry>)
    requires PageOver(SnapshotId, KeepId(snapshotId), infos, token, limit, r)
    ensures PageOver(SnapshotId, (s: SnapshotEntry) => snapshotId == "" || s.uuid == snapshotId, infos, token, limit, r)
  {
  }

  // ---------- Following the tokens ----------

  /** A client's session over a fixed set of items: the first request carries no token, each later one
      the token of the page before; the limits may change from page to page, and every request
      may see the items in another order and sort them afresh. */
  ghost predicate Session<T(!new)>(id: T -> string, key: T -> string, keep: T -> bool, items: seq<T>,
                                   limits: seq<int>, sorts: seq<seq<T>>, pages: seq<Listing<T>>) {
    && |pages| == |limits| == |sorts|
    && (forall i :: 0 <= i < |pages| ==>
          && limits[i] >= 0
          && IsSortOf(key, sorts[i], items)
          && pages[i] == PageOf(id, keep, sorts[i], TokenBefore(pages, i), limits[i]))
    && (forall i :: 0 < i < |pages| ==> TokenBefore(pages, i) != "")
  }

  function TokenBefore<T>(pages: seq<Listing<T>>, i: nat): string
    requires i <= |pages|
  {
    if i == 0 || !pages[i - 1].Page? then "" else pages[i - 1].next
  }

  function Entries<T>(pages: seq<Listing<T>>): seq<T> {
    if pages == [] then []
    else Entries(pages[..|pages| - 1]) + if pages[|pages| - 1].Page? then pages[|pages| - 1].entries else []
  }

  lemma {:induction false} FilterMembers<T>(keep: T -> bool, s: seq<T>, x: T)
    ensures x in Filter(keep, s) <==> x in s && keep(x)
  {
    if s != [] {
      assert s == s[..|s| - 1] + [s[|s| - 1]];
      FilterMembers(keep, s[..|s| - 1], x);
    }
  }

  /** The p-th kept item, where it stands in the listing and what is kept from there on. */
  lemma {:induction false} LocateKept<T>(keep: T -> bool, s: seq<T>, p: nat) returns (q: nat)
    requires p < |Filter(keep, s)|
    ensures q < |s| && s[q] == Filter(keep, s)[p] && Filter(keep, s[q..]) == Filter(keep, s)[p..]
  {
    var front, last := s[..|s| - 1], s[|s| - 1];
    var kept := Filter(keep, front);
    if p < |kept| {
      q := LocateKept(keep, front, p);
      assert s[q..][..|s| - q - 1] == front[q..];
      assert Filter(keep, s)[p..] == kept[p..] + if keep(last) then [last] else [];
    } else {
      q := |s| - 1;
      assert s[q..] == [last];
      assert s[q..][..0] == [];
      assert Filter(keep, s)[p..] == [last];
    }
  }

  lemma {:induction false} ResumeAt<T>(id: T -> string, s: seq<T>, q: nat)
    requires q < |s| && id(s[q]) != "" && forall i :: 0 <= i < q ==> id(s[i]) != id(s[q])
    ensures Resume(id, s, id(s[q])) == q
  {
    var k := Resume(id, s, id(s[q]));
  }

  /** The id of a kept item is not empty, and no item before it has it. */
  ghost predicate DistinctIds<T>(id: T -> string, keep: T -> bool, s: seq<T>) {
    && (forall i, j :: 0 <= i < j < |s| && keep(s[j]) ==> id(s[i]) != id(s[j]))
    && (forall i :: 0 <= i < |s| && keep(s[i]) ==> id(s[i]) != "")
  }

  /** The token that a page ending after `p` kept items hands out. */
  ghost predicate TokenFor<T>(id: T -> string, kept: seq<T>, p: nat, token: string) {
    if p == 0 then token == "" else p < |kept| && token == id(kept[p]) && token != ""
  }

  lemma ResumeKept<T>(id: T -> string, keep: T -> bool, s: seq<T>, token: string, p: nat)
    requires DistinctIds(id, keep, s) && TokenFor(id, Filter(keep, s), p, token)
    ensures var k := Resume(id, s, token);
            (token != "" ==> k < |s|) && p <= |Filter(keep, s)| && Filter(keep, s[k..]) == Filter(keep, s)[p..]
  {
    if token == "" {
      assert s[0..] == s;
    } else {
      var q := LocateKept(keep, s, p);
      FilterMembers(keep, s, s[q]);
      ResumeAt(id, s, q);
    }
  }

  /** A page holds a beginning of what is kept from the resume point on, and its token names the next kept item. */
  lemma PageShape<T>(id: T -> string, keep: T -> bool, s: seq<T>, token: string, limit: int)
    requires limit >= 0 && (token != "" ==> Resume(id, s, token) < |s|)
    ensures var rest, r := Filter(keep, s[Resume(id, s, token)..]), PageOf(id, keep, s, token, limit);
            && r.Page? && |r.entries| <= |rest| && r.entries == rest[..|r.entries|]
            && |r.entries| == (if 0 < limit < |rest| then limit else |rest|)
            && (|r.entries| == |rest| ==> r.next == "")
            && (|r.entries| < |rest| ==> |r.entries| > 0 && r.next == id(rest[|r.entries|]))
  {
    hide Filter, Resume;
  }

  /** A page that resumes after `p` kept items holds the next ones, and its token names the one after. */
  lemma PageAfter<T>(id: T -> string, keep: T -> bool, s: seq<T>, token: string, limit: int, p: nat)
    requires DistinctIds(id, keep, s) && TokenFor(id, Filter(keep, s), p, token) && limit >= 0
    ensures var kept, r := Filter(keep, s), PageOf(id, keep, s, token, limit);
            && r.Page? && p + |r.entries| <= |kept| && r.entries == kept[p..p + |r.entries|]
            && |r.entries| == (if 0 < limit < |kept| - p then limit else |kept| - p)
            && (r.next == "" ==> p + |r.entries| == |kept|)
            && (r.next != "" ==> |r.entries| > 0 && TokenFor(id, kept, p + |r.entries|, r.next))
  {
    ResumeKept(id, keep, s, token, p);
    PageShape(id, keep, s, token, limit);
    hide Filter, Resume, PageOf;
    var kept, r := Filter(keep, s), PageOf(id, keep, s, token, limit);
    var rest := kept[p..];
    assert rest[..|r.entries|] == kept[p..p + |r.entries|];
    if |r.entries| < |rest| {
      var x := kept[p + |r.entries|];
      assert rest[|r.entries|] == x;
      FilterMembers(keep, s, x);
      assert x in kept;
    }
  }

  /** Whether an item is wanted depends on its id alone, as it does in both listing calls. */
  ghost predicate KeptById<T(!new)>(id: T -> string, keep: T -> bool, items: seq<T>) {
    forall x, y :: x in items && y in items && id(x) == id(y) ==> keep(x) == keep(y)
  }

  /** Every kept item has an id of its own, none of them empty. */
  ghost predicate Identified<T(!new)>(id: T -> string, keep: T -> bool, items: seq<T>) {
    var kept := Filter(keep, items);
    && KeptById(id, keep, items)
    && KeysIdentify(id, kept) && NoRepeats(kept)
    && forall x :: x in kept ==> id(x) != ""
  }

  lemma DistinctInAnySort<T(!new)>(id: T -> string, key: T -> string, keep: T -> bool, s: seq<T>, items: seq<T>)
    requires IsSortOf(key, s, items) && Identified(id, keep, items)
    ensures DistinctIds(id, keep, s)
  {
    hide Filter;
    SameMembers(s, items);
    forall x
      ensures x in Filter(keep, items) <==> x in s && keep(x)
    {
      FilterMembers(keep, items, x);
    }
    forall i, j | 0 <= i < j < |s| && keep(s[j])
      ensures id(s[i]) != id(s[j])
    {
      assert s[i] in items && s[j] in items;
      assert s[j] in Filter(keep, items);
      if id(s[i]) == id(s[j]) {
        RepeatCounts(s, i, j);
        FilterCount(keep, items, s[j]);
      }
    }
  }

  /** Following the tokens is complete and exact where ids and sort keys tell the kept items apart: no request of the
      session is refused, the pages put together are a beginning of the sorted, filtered listing, the page without
      a token completes it, and every page before the last brings at least one item, so the session ends. */
  lemma {:induction false} SessionIsExact<T(!new)>(id: T -> string, key: T -> string, keep: T -> bool, items: seq<T>,
                                                   sorted: seq<T>,
                                                  limits: seq<int>, sorts: seq<seq<T>>, pages: seq<Listing<T>>)
    requires Session(id, key, keep, items, limits, sorts, pages) && IsSortOf(key, sorted, items)
    requires Identified(id, keep, items) && KeysIdentify(key, Filter(keep, items))
    ensures forall i :: 0 <= i < |pages| ==> pages[i].Page?
    ensures pages != [] ==> Seen(id, Filter(keep, sorted), Entries(pages), TokenBefore(pages, |pages|), |pages|)
    ensures |pages| <= 1 + |Filter(keep, sorted)|
  {
    hide Filter, PageOf, Session, IsSortOf, KeysIdentify, Identified, Entries, TokenFor;
    var kept := Filter(keep, sorted);
    if pages != [] {
      var n := |pages| - 1;
      SessionFront(id, key, keep, items, limits, sorts, pages);
      SessionIsExact(id, key, keep, items, sorted, limits[..n], sorts[..n], pages[..n]);
      var got, token := Entries(pages[..n]), TokenBefore(pages, n);
      NothingSeen(id, kept, pages, got);
      LastRequest(id, key, keep, items, limits, sorts, pages);
      NextPage(id, key, keep, items, sorted, sorts[n], token, limits[n], |got|);
      Advance(id, kept, got, pages[n].entries, pages[n].next, n);
      EntriesStep(pages);
    }
  }

  /** Each page of a session holds as many entries as its limit allows, and all that are left if there are fewer
      or the limit is 0. */
  lemma {:induction false} SessionPageSize<T(!new)>(id: T -> string, key: T -> string, keep: T -> bool,
                                                    items: seq<T>, sorted: seq<T>,
                                                    limits: seq<int>, sorts: seq<seq<T>>,
                                                    pages: seq<Listing<T>>, i: nat)
    requires Session(id, key, keep, items, limits, sorts, pages) && IsSortOf(key, sorted, items)
    requires Identified(id, keep, items) && KeysIdentify(key, Filter(keep, items)) && i < |pages| == |limits|
    ensures var left := |Filter(keep, sorted)| - |Entries(pages[..i])|;
            left >= 0 && pages[i].Page? && |pages[i].entries| == if 0 < limits[i] < left then limits[i] else left
    decreases |pages|
  {
    hide Filter, PageOf, Session, IsSortOf, KeysIdentify, Identified, Entries, TokenFor;
    var n := |pages| - 1;
    SessionFront(id, key, keep, items, limits, sorts, pages);
    if i < n {
      SessionPageSize(id, key, keep, items, sorted, limits[..n], sorts[..n], pages[..n], i);
      assert pages[..n][..i] == pages[..i];
    } else {
      SessionIsExact(id, key, keep, items, sorted, limits[..n], sorts[..n], pages[..n]);
      var got, token := Entries(pages[..n]), TokenBefore(pages, n);
      NothingSeen(id, Filter(keep, sorted), pages, got);
      LastRequest(id, key, keep, items, limits, sorts, pages);
      NextPage(id, key, keep, items, sorted, sorts[n], token, limits[n], |got|);
    }
  }

  /** What a client has after `n` pages, the last of which handed out `token`: a beginning of the listing, all of it
      if there is no token, and otherwise at least one item for every page. */
  ghost predicate Seen<T>(id: T -> string, kept: seq<T>, got: seq<T>, token: string, n: nat) {
    && |got| <= |kept| && got == kept[..|got|]
    && (token == "" ==> got == kept)
    && (token != "" ==> n <= |got| && TokenFor(id, kept, |got|, token))
  }

  lemma NothingSeen<T>(id: T -> string, kept: seq<T>, pages: seq<Listing<T>>, got: seq<T>)
    requires |pages| == 1 ==> got == Entries(pages[..0])
    ensures |pages| == 1 ==> got == [] && TokenFor(id, kept, |got|, TokenBefore(pages, 0))
  {
  }

  lemma Advance<T>(id: T -> string, kept: seq<T>, got: seq<T>, entries: seq<T>, next: string, n: nat)
    requires |got| + |entries| <= |kept| && got == kept[..|got|] && entries == kept[|got|..|got| + |entries|]
    requires next == "" ==> |got| + |entries| == |kept|
    requires next != "" ==> |entries| > 0 && TokenFor(id, kept, |got| + |entries|, next)
    requires n <= |got|
    ensures Seen(id, kept, got + entries, next, n + 1)
  {
    assert got + entries == kept[..|got| + |entries|];
  }

  lemma EntriesStep<T>(pages: seq<Listing<T>>)
    requires pages != [] && pages[|pages| - 1].Page?
    ensures var last := pages[|pages| - 1];
            Entries(pages) == Entries(pages[..|pages| - 1]) + last.entries && TokenBefore(pages, |pages|) == last.next
  {
  }

  /** One more page, whichever way the items were sorted for it. */
  lemma NextPage<T(!new)>(id: T -> string, key: T -> string, keep: T -> bool, items: seq<T>, sorted: seq<T>,
                          sort: seq<T>,
                          token: string, limit: int, p: nat)
    requires IsSortOf(key, sorted, items) && IsSortOf(key, sort, items) && limit >= 0
    requires Identified(id, keep, items) && KeysIdentify(key, Filter(keep, items))
    requires TokenFor(id, Filter(keep, sorted), p, token)
    ensures var kept, r := Filter(keep, sorted), PageOf(id, keep, sort, token, limit);
            && r.Page? && p + |r.entries| <= |kept| && r.entries == kept[p..p + |r.entries|]
            && |r.entries| == (if 0 < limit < |kept| - p then limit else |kept| - p)
            && (r.next == "" ==> p + |r.entries| == |kept|)
            && (r.next != "" ==> |r.entries| > 0 && TokenFor(id, kept, p + |r.entries|, r.next))
  {
    hide Filter, PageOf, TokenFor, DistinctIds, IsSortOf, KeysIdentify, Identified;
    SameKept(key, keep, sort, sorted, items);
    DistinctInAnySort(id, key, keep, sort, items);
    PageAfter(id, keep, sort, token, limit, p);
  }

  lemma LastRequest<T(!new)>(id: T -> string, key: T -> string, keep: T -> bool, items: seq<T>,
                             limits: seq<int>, sorts: seq<seq<T>>, pages: seq<Listing<T>>)
    requires Session(id, key, keep, items, limits, sorts, pages) && pages != []
    ensures |limits| == |sorts| == |pages|
    ensures var n := |pages| - 1;
            && limits[n] >= 0 && IsSortOf(key, sorts[n], items) && (n > 0 ==> TokenBefore(pages, n) != "")
            && pages[n] == PageOf(id, keep, sorts[n], TokenBefore(pages, n), limits[n])
  {
    hide PageOf, IsSortOf;
  }

  lemma SessionFront<T(!new)>(id: T -> string, key: T -> string, keep: T -> bool, items: seq<T>,
                              limits: seq<int>, sorts: seq<seq<T>>, pages: seq<Listing<T>>)
    requires Session(id, key, keep, items, limits, sorts, pages) && pages != []
    ensures |pages| == |limits| == |sorts|
    ensures var n := |pages| - 1; Session(id, key, keep, items, limits[..n], sorts[..n], pages[..n])
    ensures var n := |pages| - 1; TokenBefore(pages[..n], n) == TokenBefore(pages, n)
    ensures |pages| > 1 ==> TokenBefore(pages, |pages| - 1) != ""
  {
    var n := |pages| - 1;
    forall i | 0 <= i < n
      ensures TokenBefore(pages[..n], i) == TokenBefore(pages, i)
    {
    }
  }

  lemma {:induction false} FilterCount<T>(keep: T -> bool, s: seq<T>, x: T)
    ensures multiset(Filter(keep, s))[x] == if keep(x) then multiset(s)[x] else 0
  {
    if s != [] {
      var front, last := s[..|s| - 1], s[|s| - 1];
      assert s == front + [last];
      FilterCount(keep, front, x);
    }
  }

  lemma {:induction false} FilterSorted<T>(key: T -> string, keep: T -> bool, s: seq<T>)
    requires SortedBy(key, s)
    ensures SortedBy(key, Filter(keep, s))
  {
    hide Less;
    if s != [] {
      var front, last := s[..|s| - 1], s[|s| - 1];
      FilterSorted(key, keep, front);
      var kept := Filter(keep, front);
      forall i | 0 <= i < |kept|
        ensures !Less(key(last), key(kept[i]))
      {
        FilterMembers(keep, front, kept[i]);
        assert kept[i] in front;
      }
    }
  }

  /** Any two sorted orders agree on the kept items. */
  lemma SameKept<T(!new)>(key: T -> string, keep: T -> bool, s: seq<T>, t: seq<T>, items: seq<T>)
    requires IsSortOf(key, s, items) && IsSortOf(key, t, items) && KeysIdentify(key, Filter(keep, items))
    ensures Filter(keep, s) == Filter(keep, t)
  {
    hide Filter;
    SameMembers(s, items);
    forall x
      ensures x in Filter(keep, s) <==> x in Filter(keep, items)
      ensures multiset(Filter(keep, s))[x] == multiset(Filter(keep, t))[x]
    {
      FilterMembers(keep, s, x);
      FilterMembers(keep, items, x);
      FilterCount(keep, s, x);
      FilterCount(keep, t, x);
    }
    FilterSorted(key, keep, s);
    FilterSorted(key, keep, t);
    assert multiset(Filter(keep, s)) == multiset(Filter(keep, t));
    SortIsUnique(key, Filter(keep, s), Filter(keep, t));
  }

  // ---------- When paging is exact ----------

  /** A session that has come to its end. */
  ghost predicate Finished<T(!new)>(id: T -> string, key: T -> string, keep: T -> bool, items: seq<T>,
                                    limits: seq<int>, sorts: seq<seq<T>>, pages: seq<Listing<T>>) {
    Session(id, key, keep, items, limits, sorts, pages) && pages != [] && TokenBefore(pages, |pages|) == ""
  }

  /** Whoever follows the tokens to the end has every kept item exactly as often as it is there. */
  ghost predicate PagingIsExact<T(!new)>(id: T -> string, key: T -> string, keep: T -> bool, items: seq<T>) {
    forall limits, sorts, pages :: Finished(id, key, keep, items, limits, sorts, pages) ==>
                                     multiset(Entries(pages)) == multiset(Filter(keep, items))
  }

  /** No two places in the kept listing have the same id or the same sort key. */
  ghost predicate ToldApart<T(!new)>(id: T -> string, key: T -> string, keep: T -> bool, items: seq<T>) {
    var kept := Filter(keep, items);
    NoRepeats(kept) && KeysIdentify(id, kept) && KeysIdentify(key, kept)
  }

  /** Paging is exact if and only if no two places in the kept listing share an id or a sort key. */
  lemma PagingIsExactExactly<T(!new)>(id: T -> string, key: T -> string, keep: T -> bool, items: seq<T>, sorted: seq<T>)
    requires IsSortOf(key, sorted, items) && KeptById(id, keep, items) && forall x :: x in items ==> id(x) != ""
    ensures PagingIsExact(id, key, keep, items) <==> ToldApart(id, key, keep, items)
  {
    hide Filter, Session, IsSortOf, Entries, KeysIdentify, NoRepeats;
    KeptHaveIds(id, keep, items);
    if ToldApart(id, key, keep, items) {
      forall limits, sorts, pages | Finished(id, key, keep, items, limits, sorts, pages)
        ensures multiset(Entries(pages)) == multiset(Filter(keep, items))
      {
        FinishedIsListing(id, key, keep, items, sorted, limits, sorts, pages);
        SameKeptCount(key, keep, sorted, items);
      }
    } else {
      var limits, sorts, pages := NotExact(id, key, keep, items, sorted);
      assert Finished(id, key, keep, items, limits, sorts, pages);
    }
  }

  lemma KeptHaveIds<T(!new)>(id: T -> string, keep: T -> bool, items: seq<T>)
    requires forall x :: x in items ==> id(x) != ""
    ensures forall x :: x in Filter(keep, items) ==> id(x) != ""
  {
    hide Filter;
    forall x | x in Filter(keep, items)
      ensures id(x) != ""
    {
      FilterMembers(keep, items, x);
    }
  }

  lemma NotExact<T(!new)>(id: T -> string, key: T -> string, keep: T -> bool, items: seq<T>, sorted: seq<T>)
      returns (limits: seq<int>, sorts: seq<seq<T>>, pages: seq<Listing<T>>)
    requires IsSortOf(key, sorted, items) && KeptById(id, keep, items) && forall x :: x in items ==> id(x) != ""
    requires !ToldApart(id, key, keep, items)
    ensures Finished(id, key, keep, items, limits, sorts, pages)
    ensures multiset(Entries(pages)) != multiset(Filter(keep, items))
  {
    hide Filter, Finished, IsSortOf, Entries, KeptById;
    var kept := Filter(keep, items);
    KeptHaveIds(id, keep, items);
    if NoRepeats(kept) && KeysIdentify(id, kept) {
      var x, y :| x in kept && y in kept && key(x) == key(y) && x != y;
      FilterMembers(keep, items, x);
      FilterMembers(keep, items, y);
      limits, sorts, pages := TieRepeats(id, key, keep, items, sorted, x, y);
    } else {
      var a, b := SameIdPlaces(id, key, keep, items, sorted);
      SortMembers(key, sorted, items);
      assert sorted[a] in items;
      limits, sorts, pages := SameIdRepeats(id, key, keep, items, sorted, a, b);
    }
  }

  lemma TwoPlaces<T>(s: seq<T>, x: T) returns (a: nat, b: nat)
    requires multiset(s)[x] >= 2
    ensures a < b < |s| && s[a] == x && s[b] == x
  {
    assert x in multiset(s);
    var i :| 0 <= i < |s| && s[i] == x;
    var rest := s[..i] + s[i + 1..];
    assert s == s[..i] + [x] + s[i + 1..];
    assert multiset(rest) == multiset(s) - multiset{x};
    assert x in multiset(rest);
    var j :| 0 <= j < |rest| && rest[j] == x;
    var k := if j < i then j else j + 1;
    assert s[k] == x;
    a, b := if i < k then i else k, if i < k then k else i;
  }

  /** Where the ids of kept items repeat, the listing has two places with the same id. */
  lemma SameIdPlaces<T(!new)>(id: T -> string, key: T -> string, keep: T -> bool, items: seq<T>, sorted: seq<T>)
      returns (a: nat, b: nat)
    requires IsSortOf(key, sorted, items)
    requires !(NoRepeats(Filter(keep, items)) && KeysIdentify(id, Filter(keep, items)))
    ensures a < b < |sorted| && keep(sorted[a]) && keep(sorted[b]) && id(sorted[a]) == id(sorted[b])
  {
    hide Filter;
    var kept := Filter(keep, items);
    SameMembers(sorted, items);
    if x :| x in kept && multiset(kept)[x] != 1 {
      FilterMembers(keep, items, x);
      FilterCount(keep, items, x);
      a, b := TwoPlaces(sorted, x);
    } else {
      var x, y :| x in kept && y in kept && id(x) == id(y) && x != y;
      FilterMembers(keep, items, x);
      FilterMembers(keep, items, y);
      var i :| 0 <= i < |sorted| && sorted[i] == x;
      var j :| 0 <= j < |sorted| && sorted[j] == y;
      a, b := if i < j then i else j, if i < j then j else i;
    }
  }

  /** Two kept places with the same id, the second of which opens the second page: the token leads back to the first
      place of that id, so the item there is delivered again. */
  lemma SameIdRepeats<T(!new)>(id: T -> string, key: T -> string, keep: T -> bool, items: seq<T>, sorted: seq<T>,
                               a: nat, b: nat)
      returns (limits: seq<int>, sorts: seq<seq<T>>, pages: seq<Listing<T>>)
    requires IsSortOf(key, sorted, items) && a < b < |sorted| && keep(sorted[a]) && keep(sorted[b])
    requires id(sorted[a]) == id(sorted[b]) != ""
    ensures Finished(id, key, keep, items, limits, sorts, pages)
    ensures multiset(Entries(pages)) != multiset(Filter(keep, items))
  {
    hide Filter, PageOf, IsSortOf, Session, Finished, Entries;
    var token := id(sorted[b]);
    var k := Resume(id, sorted, token);
    var limit := |Filter(keep, sorted[..b])|;
    var first, second := Page(Filter(keep, sorted[..b]), token), Page(Filter(keep, sorted[k..]), "");
    FirstPage(id, keep, sorted, a, b);
    LastPage(id, keep, sorted, token);
    limits, sorts, pages := [limit, 0], [sorted, sorted], [first, second];
    TwoPages(id, key, keep, items, limits, sorts, pages);
    TakenAgain(key, keep, sorted, items, k, a, b);
  }

  lemma TakenAgain<T(!new)>(key: T -> string, keep: T -> bool, s: seq<T>, items: seq<T>, k: nat, a: nat, b: nat)
    requires IsSortOf(key, s, items) && k <= a < b <= |s| && keep(s[a])
    ensures multiset(Filter(keep, s[..b]) + Filter(keep, s[k..])) != multiset(Filter(keep, items))
  {
    hide Filter, SortedBy;
    var z := s[a];
    FilterCount(keep, s[..b], z);
    FilterCount(keep, s[k..], z);
    FilterCount(keep, items, z);
    assert s == s[..k] + s[k..] && s[..b] == s[..k] + s[k..b];
    assert z == s[k..b][a - k];
    assert z in multiset(s[k..b]);
  }

  lemma SameKeptCount<T(!new)>(key: T -> string, keep: T -> bool, s: seq<T>, items: seq<T>)
    requires IsSortOf(key, s, items)
    ensures multiset(Filter(keep, s)) == multiset(Filter(keep, items))
  {
    hide Filter;
    forall x
      ensures multiset(Filter(keep, s))[x] == multiset(Filter(keep, items))[x]
    {
      FilterCount(keep, s, x);
      FilterCount(keep, items, x);
    }
  }

  lemma FinishedIsListing<T(!new)>(id: T -> string, key: T -> string, keep: T -> bool, items: seq<T>, sorted: seq<T>,
                                   limits: seq<int>, sorts: seq<seq<T>>, pages: seq<Listing<T>>)
    requires Finished(id, key, keep, items, limits, sorts, pages) && IsSortOf(key, sorted, items)
    requires Identified(id, keep, items) && KeysIdentify(key, Filter(keep, items))
    ensures Entries(pages) == Filter(keep, sorted)
  {
    hide Filter, Session, IsSortOf, Identified, KeysIdentify, Entries, TokenFor;
    SessionIsExact(id, key, keep, items, sorted, limits, sorts, pages);
  }

  /** Two kept items with the same key, the second of which opens the second page: when the two change places
      between the requests, the first is delivered again. */
  lemma TieRepeats<T(!new)>(id: T -> string, key: T -> string, keep: T -> bool, items: seq<T>, sorted: seq<T>, x: T,
                            y: T)
      returns (limits: seq<int>, sorts: seq<seq<T>>, pages: seq<Listing<T>>)
    requires Identified(id, keep, items) && IsSortOf(key, sorted, items)
    requires x in items && y in items && keep(x) && keep(y) && key(x) == key(y) && x != y
    ensures Finished(id, key, keep, items, limits, sorts, pages)
    ensures multiset(Entries(pages)) != multiset(Filter(keep, items))
  {
    hide Filter, PageOf, Resume, IsSortOf, Session, Finished, Identified, Entries, DistinctIds;
    SortMembers(key, sorted, items);
    var i :| 0 <= i < |sorted| && sorted[i] == x;
    var j :| 0 <= j < |sorted| && sorted[j] == y;
    var a, b := if i < j then i else j, if i < j then j else i;
    var swapped := sorted[a := sorted[b]][b := sorted[a]];
    SwapIsSort(key, sorted, items, a, b);
    DistinctInAnySort(id, key, keep, swapped, items);
    ResumesAt(id, keep, swapped, a);
    var limit := |Filter(keep, sorted[..b])|;
    var first := Page(Filter(keep, sorted[..b]), id(sorted[b]));
    var second := Page(Filter(keep, swapped[a..]), "");
    FirstPage(id, keep, sorted, a, b);
    LastPage(id, keep, swapped, id(sorted[b]));
    limits, sorts, pages := [limit, 0], [sorted, swapped], [first, second];
    TwoPages(id, key, keep, items, limits, sorts, pages);
    TakenTwice(id, keep, sorted, swapped, items, a, b);
  }

  lemma ResumesAt<T>(id: T -> string, keep: T -> bool, s: seq<T>, q: nat)
    requires DistinctIds(id, keep, s) && q < |s| && keep(s[q])
    ensures Resume(id, s, id(s[q])) == q && id(s[q]) != ""
  {
    ResumeAt(id, s, q);
  }

  lemma SortMembers<T>(key: T -> string, s: seq<T>, items: seq<T>)
    requires IsSortOf(key, s, items)
    ensures |s| == |items| && forall x :: x in s <==> x in items
  {
    SameMembers(s, items);
  }

  lemma TakenTwice<T(!new)>(id: T -> string, keep: T -> bool, s: seq<T>, t: seq<T>, items: seq<T>, a: nat, b: nat)
    requires a < b < |s| == |t| && t[b] == s[a] && keep(s[a]) && s[a] in items && Identified(id, keep, items)
    ensures multiset(Filter(keep, s[..b]) + Filter(keep, t[a..])) != multiset(Filter(keep, items))
  {
    hide Filter, KeptById, KeysIdentify;
    var z := s[a];
    assert z == s[..b][a] && z == t[a..][b - a];
    FilterCount(keep, s[..b], z);
    FilterCount(keep, t[a..], z);
    FilterCount(keep, items, z);
    FilterMembers(keep, items, z);
  }

  lemma SwapIsSort<T>(key: T -> string, s: seq<T>, items: seq<T>, a: nat, b: nat)
    requires IsSortOf(key, s, items) && a < b < |s| && key(s[a]) == key(s[b])
    ensures IsSortOf(key, s[a := s[b]][b := s[a]], items)
  {
    hide Less;
    var t := s[a := s[b]][b := s[a]];
    assert forall i :: 0 <= i < |s| ==> key(t[i]) == key(s[i]);
    SwapKeepsItems(s, a, b);
  }

  lemma SwapKeepsItems<T>(s: seq<T>, a: nat, b: nat)
    requires a < b < |s|
    ensures multiset(s[a := s[b]][b := s[a]]) == multiset(s)
  {
  }

  lemma FirstPage<T>(id: T -> string, keep: T -> bool, s: seq<T>, a: nat, b: nat)
    requires a < b < |s| && keep(s[a]) && keep(s[b])
    ensures var kept := Filter(keep, s[..b]);
            |kept| > 0 && PageOf(id, keep, s, "", |kept|) == Page(kept, id(s[b]))
  {
    hide Filter;
    FilterMembers(keep, s[..b], s[a]);
    assert s[..b][a] == s[a];
    FilterSplit(keep, s, 0, b);
    FilterSplit(keep, s, b, b + 1);
    FilterStep(keep, s, b, b);
    FilterNone(keep, s, b);
    assert s[0..b] == s[..b] && s[0..] == s;
  }

  lemma LastPage<T>(id: T -> string, keep: T -> bool, s: seq<T>, token: string)
    requires Resume(id, s, token) < |s|
    ensures PageOf(id, keep, s, token, 0) == Page(Filter(keep, s[Resume(id, s, token)..]), "")
  {
  }

  lemma TwoPages<T(!new)>(id: T -> string, key: T -> string, keep: T -> bool, items: seq<T>,
                          limits: seq<int>, sorts: seq<seq<T>>, pages: seq<Listing<T>>)
    requires |limits| == |sorts| == |pages| == 2 && pages[0].Page? && pages[1].Page?
    requires limits[0] >= 0 && limits[1] >= 0 && IsSortOf(key, sorts[0], items) && IsSortOf(key, sorts[1], items)
    requires pages[0] == PageOf(id, keep, sorts[0], "", limits[0]) && pages[0].next != ""
    requires pages[1] == PageOf(id, keep, sorts[1], pages[0].next, limits[1]) && pages[1].next == ""
    ensures Finished(id, key, keep, items, limits, sorts, pages)
    ensures Entries(pages) == pages[0].entries + pages[1].entries
  {
    hide PageOf, IsSortOf;
    assert pages[..1][..0] == [];
    assert Entries(pages[..1][..0]) == [];
    assert Entries(pages[..1]) == pages[0].entries;
  }

  /** A non-empty token is refused exactly when it names no item. */
  lemma RefusedExactly<T(!new)>(id: T -> string, key: T -> string, keep: T -> bool, items: seq<T>, sorted: seq<T>,
                                token: string, limit: int)
    requires IsSortOf(key, sorted, items) && token != "" && limit >= 0
    ensures PageOf(id, keep, sorted, token, limit) == Aborted <==> forall x :: x in items ==> id(x) != token
  {
    SameMembers(sorted, items);
    var k := Resume(id, sorted, token);
    if k < |sorted| {
      assert sorted[k] in items;
    } else {
      forall x | x in items
        ensures id(x) != token
      {
        assert x in sorted;
      }
    }
  }

  // ---------- The sort key of snapshots ----------

  /** Distinct snapshot ids without a slash give distinct sort keys, whatever the parents are. */
  lemma SlashFreeKeys(p: string, u: string, q: string, v: string)
    requires '/' !in u && '/' !in v && p + "/" + u == q + "/" + v
    ensures p == q && u == v
  {
    var a, b := p + "/" + u, q + "/" + v;
    assert a[|p|] == '/' && b[|q|] == '/';
    assert p == a[..|p|] && q == b[..|q|];
    assert u == a[|p| + 1..] && v == b[|q| + 1..];
  }

  lemma SnapshotKeysIdentify(items: seq<SnapshotEntry>, kept: seq<SnapshotEntry>)
    requires KeysIdentify(SnapshotId, kept) && forall s :: s in kept ==> s in items && '/' !in s.uuid
    ensures KeysIdentify(SnapshotKey, kept)
  {
    forall x, y | x in kept && y in kept && SnapshotKey(x) == SnapshotKey(y)
      ensures x == y
    {
      SlashFreeKeys(x.parentUuid, x.uuid, y.parentUuid, y.uuid);
    }
  }

  lemma KeptKeysIdentify(items: seq<SnapshotEntry>, snapshotId: string)
    requires Identified(SnapshotId, KeepId(snapshotId), items)
    requires snapshotId == "" ==> forall s :: s in items ==> '/' !in s.uuid
    ensures KeysIdentify(SnapshotKey, Filter(KeepId(snapshotId), items))
  {
    hide Filter;
    var kept := Filter(KeepId(snapshotId), items);
    forall x | x in kept
      ensures x in items && KeepId(snapshotId)(x)
    {
      FilterMembers(KeepId(snapshotId), items, x);
    }
    if snapshotId == "" {
      SnapshotKeysIdentify(items, kept);
    }
  }

  /** Paging through snapshots, of one source or all, filtered by snapshot id or not; without such a
      filter the ids must be free of slashes. */
  lemma SnapshotSessionIsExact(items: seq<SnapshotEntry>, snapshotId: string, sorted: seq<SnapshotEntry>,
                               limits: seq<int>, sorts: seq<seq<SnapshotEntry>>, pages: seq<Listing<SnapshotEntry>>)
    requires Session(SnapshotId, SnapshotKey, KeepId(snapshotId), items, limits, sorts, pages)
    requires IsSortOf(SnapshotKey, sorted, items) && Identified(SnapshotId, KeepId(snapshotId), items)
    requires snapshotId == "" ==> forall s :: s in items ==> '/' !in s.uuid
    requires pages != [] && TokenBefore(pages, |pages|) == ""
    ensures Entries(pages) == Filter(KeepId(snapshotId), sorted)
    ensures forall s :: multiset(Entries(pages))[s] ==
                          if snapshotId == "" || s.uuid == snapshotId then multiset(items)[s] else 0
  {
    hide Filter, Session, IsSortOf, Entries, TokenFor;
    KeptKeysIdentify(items, snapshotId);
    SessionIsExact(SnapshotId, SnapshotKey, KeepId(snapshotId), items, sorted, limits, sorts, pages);
    SortCounts(SnapshotKey, sorted, items);
    forall s
      ensures multiset(Entries(pages))[s] == if snapshotId == "" || s.uuid == snapshotId then multiset(items)[s] else 0
    {
      FilterCount(KeepId(snapshotId), sorted, s);
    }
  }

  const SLASH_A := SnapshotEntry("c", "a/b", 0, 0, "")
  const SLASH_B := SnapshotEntry("b/c", "a", 0, 0, "")

  function SlashSort(i: int): seq<SnapshotEntry> {
    if i % 2 == 0 then [SLASH_A, SLASH_B] else [SLASH_B, SLASH_A]
  }

  function SlashListing(i: int): Listing<SnapshotEntry> {
    if i % 2 == 0 then Page([SLASH_A], SLASH_B.uuid) else Page([SLASH_B], SLASH_A.uuid)
  }

  /** The slash condition is needed: two snapshots with different ids can have the same key. Listed one at a time, with
      the two changing places from request to request, they keep a client going for any number of pages. */
  lemma SlashSession(n: nat)
    ensures Identified(SnapshotId, KeepId(""), [SLASH_A, SLASH_B])
    ensures Session(SnapshotId, SnapshotKey, KeepId(""), [SLASH_A, SLASH_B],
                    seq(n, i => 1), seq(n, SlashSort), seq(n, SlashListing))
  {
    SlashIdentified();
    hide PageOf, IsSortOf, KeepId, SnapshotKey, Identified;
    assert "b/c" != "c";
    var limits, sorts, pages := seq(n, i => 1), seq(n, SlashSort), seq(n, SlashListing);
    forall i | 0 <= i < n
      ensures IsSortOf(SnapshotKey, sorts[i], [SLASH_A, SLASH_B])
      ensures pages[i] == PageOf(SnapshotId, KeepId(""), sorts[i], TokenBefore(pages, i), limits[i])
    {
      SlashSorts(i);
      if i % 2 == 0 {
        SlashPage(SLASH_A, SLASH_B, TokenBefore(pages, i));
      } else {
        SlashPage(SLASH_B, SLASH_A, TokenBefore(pages, i));
      }
    }
  }

  lemma SlashIdentified()
    ensures Identified(SnapshotId, KeepId(""), [SLASH_A, SLASH_B])
  {
    var items := [SLASH_A, SLASH_B];
    assert items[..1][..0] == [] && Filter(KeepId(""), items[..1]) == [SLASH_A];
    assert Filter(KeepId(""), items) == items;
    assert "b/c" != "c";
  }

  lemma SlashSorts(i: int)
    ensures IsSortOf(SnapshotKey, SlashSort(i), [SLASH_A, SLASH_B])
  {
    hide Less;
    assert SnapshotKey(SLASH_A) == "a/b/c" == SnapshotKey(SLASH_B);
    LessTotal("a/b/c", "a/b/c");
    assert multiset([SLASH_B, SLASH_A]) == multiset([SLASH_A, SLASH_B]);
  }

  lemma SlashPage(x: SnapshotEntry, y: SnapshotEntry, token: string)
    requires token == "" || token == x.uuid
    ensures PageOf(SnapshotId, KeepId(""), [x, y], token, 1) == Page([x], y.uuid)
  {
    assert [x, y][0..] == [x, y];
    assert [x, y][..1] == [x] && [x][..0] == [];
    assert Filter(KeepId(""), [x]) == [x];
  }

  // ---------- The listing of volumes ----------

  /** Paging through the volumes is exact if and only if no id is listed twice. */
  lemma VolumePagingExactly(items: seq<VolumeEntry>, sorted: seq<VolumeEntry>)
    requires IsSortOf(VolumeId, sorted, items) && forall v :: v in items ==> v.volumeId != ""
    ensures PagingIsExact(VolumeId, VolumeId, KeepAll, items) <==>
            forall i, j :: 0 <= i < j < |items| ==> items[i].volumeId != items[j].volumeId
  {
    hide IsSortOf, PagingIsExact;
    PagingIsExactExactly(VolumeId, VolumeId, KeepAll, items, sorted);
    AllKept(items);
    if NoRepeats(items) && KeysIdentify(VolumeId, items) {
      forall i, j | 0 <= i < j < |items|
        ensures items[i].volumeId != items[j].volumeId
      {
        assert items[i] in items && items[j] in items;
        if items[i] == items[j] {
          RepeatCounts(items, i, j);
        }
      }
    } else if x :| x in items && multiset(items)[x] != 1 {
      var a, b := TwoPlaces(items, x);
    }
  }

  lemma {:induction false} AllKept(items: seq<VolumeEntry>)
    ensures Filter(KeepAll, items) == items
  {
    hide Filter;
    if items == [] {
      FilterNone(KeepAll, items, 0);
      assert items[0..0] == items;
    } else {
      var front, last := items[..|items| - 1], items[|items| - 1];
      AllKept(front);
      FilterStep(KeepAll, items, 0, |items| - 1);
      assert items[0..|items| - 1] == front && items[0..|items|] == items;
    }
  }

  /** A volume that is listed twice, as a LUN mapped by two targets is, keeps a client that asks for one entry at
      a time going for any number of pages. */
  lemma RepeatedIdSession(v: VolumeEntry, n: nat)
    requires v.volumeId != ""
    ensures Session(VolumeId, VolumeId, KeepAll, [v, v],
                    seq(n, i => 1), seq(n, i => [v, v]), seq(n, i => Page([v], v.volumeId)))
  {
    hide PageOf, IsSortOf;
    TwicePage(v, "");
    TwicePage(v, v.volumeId);
    TwiceSorted(v);
  }

  lemma TwiceSorted(v: VolumeEntry)
    ensures IsSortOf(VolumeId, [v, v], [v, v])
  {
    LessIrreflexive(v.volumeId);
  }

  lemma TwicePage(v: VolumeEntry, token: string)
    requires token == "" || token == v.volumeId
    ensures PageOf(VolumeId, KeepAll, [v, v], token, 1) == Page([v], v.volumeId)
  {
    hide Filter;
    assert [v, v][0..] == [v, v];
    AllKept([v, v]);
    assert [v, v][..1] == [v];
  }
}
