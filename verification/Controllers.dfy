/** Finding the management address of a unified controller's other half. */
module Controllers {
  import opened Wrappers

  datatype Interface = Interface(ip: string, status: string)

  datatype Result = Found(ip: string, own: string, other: string) | ListFailed | LookupFailed | NoneReachable

  // ---------- Dotted prefixes ----------

  /** The position of the last dot, or -1. */
  function LastDot(s: string): (i: int)
    ensures -1 <= i < |s|
    ensures i >= 0 ==> s[i] == '.' && forall k :: i < k < |s| ==> s[k] != '.'
    ensures i == -1 ==> '.' !in s
  {
    if s == [] then -1
    else if s[|s| - 1] == '.' then |s| - 1
    else
      assert s == s[..|s| - 1] + [s[|s| - 1]];
      LastDot(s[..|s| - 1])
  }

  /** The string without its last dotted part; empty when there is no dot. */
  function Strip(s: string): (p: string)
    ensures p <= s
  {
    if LastDot(s) == -1 then "" else s[..LastDot(s)]
  }

  function Prefix(ip: string, k: nat): (p: string)
    ensures p <= ip
  {
    if k == 0 then ip else Strip(Prefix(ip, k - 1))
  }

  /** How many dots there are from position `p` on. */
  function Dots(s: string, p: nat): nat
    requires p <= |s|
    decreases |s| - p
  {
    if p == |s| then 0 else Dots(s, p + 1) + if s[p] == '.' then 1 else 0
  }

  predicate Matches(prefix: string, netIf: Interface) {
    prefix <= netIf.ip
  }

  predicate Usable(reachable: string -> bool, netIf: Interface) {
    netIf.status == "connected" && reachable(netIf.ip)
  }

  /** The first usable interface that matches the prefix, or |list|. */
  function FirstMatch(reachable: string -> bool, list: seq<Interface>, prefix: string): (j: nat)
    ensures j <= |list|
    ensures j < |list| ==> Matches(prefix, list[j]) && Usable(reachable, list[j])
    ensures forall i :: 0 <= i < j ==> !(Matches(prefix, list[i]) && Usable(reachable, list[i]))
  {
    if list == [] then 0
    else if Matches(prefix, list[0]) && Usable(reachable, list[0]) then 0
    else
      var j := FirstMatch(reachable, list[1..], prefix);
      assert forall i :: 0 < i <= j && i < |list| ==> list[i] == list[1..][i - 1];
      1 + j
  }

  /** Tries the prefixes from the k-th to the fourth. */
  function Search(reachable: string -> bool, list: seq<Interface>, ip: string, k: nat): (r: Option<string>)
    requires 1 <= k <= 5
    decreases 5 - k, ip
  {
    if k == 5 then None
    else
      var j := FirstMatch(reachable, list, Prefix(ip, k));
      if j < |list| then Some(list[j].ip) else Search(reachable, list, ip, k + 1)
  }

  /** Whose half the address belongs to, and the address found on the other one. */
  method GetAnotherController(listA: Option<seq<Interface>>, listB: Option<seq<Interface>>, ips: seq<string>,
                              reachable: string -> bool) returns (r: Result)
    ensures r.ListFailed? <==> listA.None? || listB.None?
    ensures r.LookupFailed? <==> listA.Some? && listB.Some? && ips == []
    ensures r.Found? ==>
              var onB := exists i :: 0 <= i < |listB.value| && listB.value[i].ip == ips[0];
              && r.own == (if onB then "B" else "A") && r.other == (if onB then "A" else "B")
              && IsNearestAddress(reachable, if onB then listA.value else listB.value, ips[0], r.ip)
    ensures r.NoneReachable? ==>
              var onB := exists i :: 0 <= i < |listB.value| && listB.value[i].ip == ips[0];
              NoneAnswers(reachable, if onB then listA.value else listB.value, ips[0])
  {
    hide IsNearestAddress, NoneAnswers;
    if listA.None? || listB.None? {
      return ListFailed;
    }
    if ips == [] {
      return LookupFailed;
    }
    var own, other, anotherList := "A", "B", listB.value;
    for i := 0 to |listB.value|
      invariant own == "A" && other == "B" && anotherList == listB.value
      invariant forall k :: 0 <= k < i ==> listB.value[k].ip != ips[0]
    {
      if listB.value[i].ip == ips[0] {
        own, other, anotherList := "B", "A", listA.value;
        break;
      }
    }
    var found := TryPrefixes(anotherList, ips[0], reachable);
    r := if found.Some? then Found(found.value, own, other) else NoneReachable;
  }

  /** The outer loop: up to four times, cut off the last dotted part and try what is left. */
  method TryPrefixes(list: seq<Interface>, ip: string, reachable: string -> bool) returns (r: Option<string>)
    ensures r == Search(reachable, list, ip, 1)
    ensures r.Some? ==> IsNearestAddress(reachable, list, ip, r.value)
    ensures r.None? ==> NoneAnswers(reachable, list, ip)
  {
    hide FirstMatch, LastDot, IsNearestAddress, NoneAnswers;
    SearchIsNearest(reachable, list, ip);
    var ipPrefix := ip;
    for i := 0 to 4
      invariant ipPrefix == Prefix(ip, i)
      invariant Search(reachable, list, ip, 1) == Search(reachable, list, ip, i + 1)
    {
      var dotPos := LastDot(ipPrefix);
      ipPrefix := if dotPos == -1 then "" else ipPrefix[..dotPos];
      assert ipPrefix == Prefix(ip, i + 1);
      var j := TryPrefix(list, ipPrefix, reachable);
      if j < |list| {
        return Some(list[j].ip);
      }
    }
    return None;
  }

  /** The inner loop: the first interface that matches the prefix, is connected and answers. */
  method TryPrefix(list: seq<Interface>, ipPrefix: string, reachable: string -> bool) returns (j: nat)
    ensures j == FirstMatch(reachable, list, ipPrefix)
  {
    for i := 0 to |list|
      invariant i <= FirstMatch(reachable, list, ipPrefix)
    {
      var netIf := list[i];
      if ipPrefix != "" && !(ipPrefix <= netIf.ip) {
        continue;
      }
      if netIf.status == "connected" && reachable(netIf.ip) {
        return i;
      }
    }
    j := |list|;
  }

  // ---------- What the search finds ----------

  lemma {:induction false} PrefixesShrink(ip: string, i: nat, k: nat)
    requires i <= k
    ensures Prefix(ip, k) <= Prefix(ip, i)
  {
    if i < k {
      PrefixesShrink(ip, i, k - 1);
    }
  }

  /** Cutting the last `k` dotted parts off the address leaves its first `p` characters, and nothing when it has
      fewer than `k` dots. */
  predicate LeftAfter(ip: string, k: nat, p: nat) {
    if k <= Dots(ip, 0) then p < |ip| && ip[p] == '.' && Dots(ip, p) == k else p == 0
  }

  lemma {:induction false} DotsBetween(s: string, p: nat, q: nat)
    requires p <= q <= |s|
    ensures Dots(s, q) <= Dots(s, p)
    ensures Dots(s, q) == Dots(s, p) <==> forall i :: p <= i < q ==> s[i] != '.'
    decreases q - p
  {
    if p < q {
      DotsBetween(s, p + 1, q);
    }
  }

  /** Cutting at the last dot of the first `p` characters cuts off one dot more. */
  lemma CutAtDot(ip: string, p: nat)
    requires p <= |ip|
    ensures var d := LastDot(ip[..p]);
            if d == -1 then Dots(ip, 0) == Dots(ip, p)
            else ip[d] == '.' && Dots(ip, d) == Dots(ip, p) + 1 <= Dots(ip, 0)
  {
    var d := LastDot(ip[..p]);
    if d == -1 {
      assert forall i :: 0 <= i < p ==> ip[..p][i] == ip[i];
      DotsBetween(ip, 0, p);
    } else {
      assert forall i :: d < i < p ==> ip[..p][i] != '.';
      DotsBetween(ip, d + 1, p);
      DotsBetween(ip, 0, d);
    }
  }

  lemma {:induction false} PrefixIsPiece(ip: string, k: nat)
    ensures if k == 0 then Prefix(ip, k) == ip else LeftAfter(ip, k, |Prefix(ip, k)|)
  {
    hide Dots, LastDot;
    if k > 0 {
      PrefixIsPiece(ip, k - 1);
      var p := |Prefix(ip, k - 1)|;
      assert ip[..p] == Prefix(ip, k - 1);
      DotsAtEnd(ip);
      CutAtDot(ip, p);
    }
  }

  lemma DotsAtEnd(ip: string)
    ensures Dots(ip, |ip|) == 0
  {
  }

  lemma PieceIsPrefix(ip: string, k: nat, p: nat)
    requires k > 0 && p <= |ip| && LeftAfter(ip, k, p)
    ensures ip[..p] == Prefix(ip, k)
  {
    hide Dots, Prefix;
    PrefixIsPiece(ip, k);
    var n := |Prefix(ip, k)|;
    if n < p {
      DotsBetween(ip, n, p);
    } else {
      DotsBetween(ip, p, n);
    }
  }

  /** Four strips leave nothing of an address with three dots. */
  lemma FourthPrefixIsEmpty(ip: string)
    requires Dots(ip, 0) <= 3
    ensures Prefix(ip, 4) == ""
  {
    hide Prefix;
    PrefixIsPiece(ip, 4);
  }

  /** Interface `j` is the first in list order to match the k-th prefix, and no usable interface
      matches a longer one. */
  ghost predicate IsBestMatch(reachable: string -> bool, list: seq<Interface>, ip: string, j: nat, k: nat) {
    && 1 <= k <= 4 && j < |list| && Usable(reachable, list[j]) && Matches(Prefix(ip, k), list[j])
    && (forall i :: 0 <= i < j && Usable(reachable, list[i]) ==> !Matches(Prefix(ip, k), list[i]))
    && (forall i, m :: 0 <= i < |list| && Usable(reachable, list[i]) && 1 <= m < k ==> !Matches(Prefix(ip, m), list[i]))
  }

  lemma {:induction false} SearchFindsBest(reachable: string -> bool, list: seq<Interface>, ip: string, k: nat)
      returns (j: nat, m: nat)
    requires 1 <= k <= 5
    requires forall i, n :: 0 <= i < |list| && Usable(reachable, list[i]) && 1 <= n < k ==>
               !Matches(Prefix(ip, n), list[i])
    ensures Search(reachable, list, ip, k).Some? ==>
              IsBestMatch(reachable, list, ip, j, m) && Search(reachable, list, ip, k) == Some(list[j].ip)
    ensures Search(reachable, list, ip, k).None? ==>
              forall i :: 0 <= i < |list| && Usable(reachable, list[i]) ==> !Matches(Prefix(ip, 4), list[i])
    decreases 5 - k
  {
    j, m := 0, 0;
    if k < 5 {
      var f := FirstMatch(reachable, list, Prefix(ip, k));
      if f < |list| {
        j, m := f, k;
      } else {
        j, m := SearchFindsBest(reachable, list, ip, k + 1);
      }
    }
  }

  /** For a dotted address of at most four parts, the search fails exactly when the other controller has no
      usable interface; otherwise it finds the first interface, in list order, among the usable
      ones matching the longest dotted prefix that any of them matches. */
  lemma BestPrefix(reachable: string -> bool, list: seq<Interface>, ip: string)
    requires Dots(ip, 0) <= 3
    ensures Search(reachable, list, ip, 1).None? <==> forall i :: 0 <= i < |list| ==> !Usable(reachable, list[i])
    ensures Search(reachable, list, ip, 1).Some? ==>
              exists j: nat, k: nat :: IsBestMatch(reachable, list, ip, j, k) &&
                                       Search(reachable, list, ip, 1) == Some(list[j].ip)
  {
    FourthPrefixIsEmpty(ip);
    var j, k := SearchFindsBest(reachable, list, ip, 1);
  }

  // ---------- The same, on the strings themselves ----------

  /** An interface that begins with this, is connected and answers. */
  predicate AnswersOn(piece: string, netIf: Interface, reachable: string -> bool) {
    piece <= netIf.ip && netIf.status == "connected" && reachable(netIf.ip)
  }

  /** With the last `k` dotted parts cut off, `p` characters of the address are left. Interface `j` is the first
      in the list to begin with them, to be connected and to answer, and no such interface begins with a longer
      piece. */
  ghost predicate IsNearest(reachable: string -> bool, list: seq<Interface>, ip: string, j: nat, k: nat, p: nat) {
    && 1 <= k <= 4 && p <= |ip| && LeftAfter(ip, k, p) && j < |list|
    && AnswersOn(ip[..p], list[j], reachable)
    && (forall i :: 0 <= i < j ==> !AnswersOn(ip[..p], list[i], reachable))
    && (forall i, m: nat, n: nat :: 0 <= i < |list| && 1 <= m < k && n <= |ip| && LeftAfter(ip, m, n) ==>
          !AnswersOn(ip[..n], list[i], reachable))
  }

  /** The address found is that of the nearest interface. */
  ghost predicate IsNearestAddress(reachable: string -> bool, list: seq<Interface>, ip: string, found: string) {
    exists j: nat, k: nat, p: nat :: IsNearest(reachable, list, ip, j, k, p) && found == list[j].ip
  }

  /** No interface answers that begins with what is left after four cuts: of an address with at most three dots
      nothing is, and then none answers at all. */
  ghost predicate NoneAnswers(reachable: string -> bool, list: seq<Interface>, ip: string) {
    forall i, p: nat :: 0 <= i < |list| && p <= |ip| && LeftAfter(ip, 4, p) ==> !AnswersOn(ip[..p], list[i], reachable)
  }

  /** What the search over prefixes finds is the nearest interface. */
  lemma SearchIsNearest(reachable: string -> bool, list: seq<Interface>, ip: string)
    ensures var r := Search(reachable, list, ip, 1);
            if r.Some? then IsNearestAddress(reachable, list, ip, r.value) else NoneAnswers(reachable, list, ip)
  {
    hide Prefix, LeftAfter, Search, IsNearest;
    var j, k := SearchFindsBest(reachable, list, ip, 1);
    if Search(reachable, list, ip, 1).Some? {
      BestIsNearest(reachable, list, ip, j, k);
    } else {
      forall i, p: nat | 0 <= i < |list| && p <= |ip| && LeftAfter(ip, 4, p)
        ensures !AnswersOn(ip[..p], list[i], reachable)
      {
        PieceIsPrefix(ip, 4, p);
      }
    }
  }

  lemma BestIsNearest(reachable: string -> bool, list: seq<Interface>, ip: string, j: nat, k: nat)
    requires IsBestMatch(reachable, list, ip, j, k)
    ensures IsNearest(reachable, list, ip, j, k, |Prefix(ip, k)|)
  {
    hide Prefix, LeftAfter;
    PrefixIsPiece(ip, k);
    forall i, m: nat, n: nat | 0 <= i < |list| && 1 <= m < k && n <= |ip| && LeftAfter(ip, m, n)
      ensures !AnswersOn(ip[..n], list[i], reachable)
    {
      PieceIsPrefix(ip, m, n);
    }
  }
}
