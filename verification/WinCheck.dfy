/** The program's win check, which looks only along the four lines through the last disc. */
module WinCheck {
  import opened Wrappers
  import opened Board

  /** How many discs of `p` follow (r, c) without a gap in direction (dr, dc), counting three at most. */
  function RunLength(b: Grid, r: int, c: int, dr: int, dc: int, p: Cell): (n: nat)
    ensures n <= 3
  {
    if !Is(b, r + dr, c + dc, p) then 0
    else if !Is(b, r + 2 * dr, c + 2 * dc, p) then 1
    else if !Is(b, r + 3 * dr, c + 3 * dc, p) then 2
    else 3
  }

  predicate LineInDirection(b: Grid, r: int, c: int, dr: int, dc: int, p: Cell) {
    1 + RunLength(b, r, c, dr, dc, p) + RunLength(b, r, c, -dr, -dc, p) >= WIN_IN_A_ROW
  }

  /** Whether some line through (r, c) wins for `p`. */
  predicate LineThrough(b: Grid, r: int, c: int, p: Cell) {
    exists k :: 0 <= k < 4 && LineInDirection(b, r, c, DIRECTIONS[k].0, DIRECTIONS[k].1, p)
  }

  /** The `n` cells after (r, c) in direction (dr, dc). */
  function CellsAlong(r: int, c: int, dr: int, dc: int, n: nat): (cells: seq<(int, int)>)
    ensures |cells| == n
    ensures forall i :: 0 <= i < n ==> cells[i] == (r + dr * (i + 1), c + dc * (i + 1))
  {
    if n == 0 then [] else CellsAlong(r, c, dr, dc, n - 1) + [(r + dr * n, c + dc * n)]
  }

  function LineOf(b: Grid, r: int, c: int, dr: int, dc: int, p: Cell): seq<(int, int)> {
    Segment(r, c, dr, dc, RunLength(b, r, c, dr, dc, p), RunLength(b, r, c, -dr, -dc, p))
  }

  /** The line found in the directions from the k-th on: the first that is long enough. */
  function WinFrom(b: Grid, r: int, c: int, p: Cell, k: nat): (line: Option<seq<(int, int)>>)
    requires k <= 4
    ensures line.Some? <==> exists i :: k <= i < 4 && LineInDirection(b, r, c, DIRECTIONS[i].0, DIRECTIONS[i].1, p)
    decreases 4 - k, b
  {
    if k == 4 then None
    else if LineInDirection(b, r, c, DIRECTIONS[k].0, DIRECTIONS[k].1, p) then
      Some(LineOf(b, r, c, DIRECTIONS[k].0, DIRECTIONS[k].1, p))
    else WinFrom(b, r, c, p, k + 1)
  }

  function Win(b: Grid, r: int, c: int, p: Cell): (line: Option<seq<(int, int)>>)
    ensures line.Some? <==> LineThrough(b, r, c, p)
  {
    WinFrom(b, r, c, p, 0)
  }

  // ---------- What the returned line is ----------

  /** The cells at distances lo..hi from (r, c) along one direction, each listed once, all held by `p`, and every
      cell within three steps that `p` holds without a gap. */
  ghost predicate IsWinningLine(b: Grid, line: seq<(int, int)>, r: int, c: int, p: Cell) {
    exists dr, dc, lo, hi ::
      && IsDirection(dr, dc)
      && lo <= 0 <= hi
      && hi - lo + 1 == |line| >= WIN_IN_A_ROW
      && IsSegment(line, r, c, dr, dc, lo, hi)
      && (forall i :: 0 <= i < |line| ==> Is(b, line[i].0, line[i].1, p))
      && (forall k :: -3 <= k <= 3 && HeldTo(b, r, c, dr, dc, k, p) ==> lo <= k <= hi)
  }

  /** `p` holds every cell from the disc to the one `k` steps away. */
  ghost predicate HeldTo(b: Grid, r: int, c: int, dr: int, dc: int, k: int, p: Cell) {
    forall j :: 0 < j <= k || k <= j < 0 ==> Is(b, r + dr * j, c + dc * j, p)
  }

  /** `line` lists exactly the cells at distances lo..hi from (r, c), without repetition. */
  ghost predicate IsSegment(line: seq<(int, int)>, r: int, c: int, dr: int, dc: int, lo: int, hi: int) {
    && (forall i, j :: 0 <= i < j < |line| ==> line[i] != line[j])
    && (forall k :: lo <= k <= hi ==> Along(r, c, dr, dc, k) in line)
    && (forall i :: 0 <= i < |line| ==> exists k :: lo <= k <= hi && line[i] == Along(r, c, dr, dc, k))
  }

  function Along(r: int, c: int, dr: int, dc: int, k: int): (int, int) {
    (r + dr * k, c + dc * k)
  }

  function Segment(r: int, c: int, dr: int, dc: int, f: nat, g: nat): (line: seq<(int, int)>)
    ensures |line| == 1 + f + g
  {
    [(r, c)] + CellsAlong(r, c, dr, dc, f) + CellsAlong(r, c, -dr, -dc, g)
  }

  /** The distance from the disc of the i-th cell: 0, 1, .., f, -1, .., -g. */
  function Distance(f: nat, i: int): int {
    if i <= f then i else f - i
  }

  lemma SegmentCell(r: int, c: int, dr: int, dc: int, f: nat, g: nat, i: nat)
    requires i < 1 + f + g
    ensures Segment(r, c, dr, dc, f, g)[i] == Along(r, c, dr, dc, Distance(f, i))
  {
    hide CellsAlong;
    if 0 < i <= f {
      assert Segment(r, c, dr, dc, f, g)[i] == CellsAlong(r, c, dr, dc, f)[i - 1];
    } else if i > f {
      assert Segment(r, c, dr, dc, f, g)[i] == CellsAlong(r, c, -dr, -dc, g)[i - 1 - f];
      assert (-dr) * (i - f) == dr * (f - i) && (-dc) * (i - f) == dc * (f - i);
    }
  }

  lemma SegmentIsSegment(r: int, c: int, dr: int, dc: int, f: nat, g: nat)
    requires IsDirection(dr, dc)
    ensures IsSegment(Segment(r, c, dr, dc, f, g), r, c, dr, dc, -(g as int), f)
  {
    hide Segment, Along, IsDirection;
    var line, lo := Segment(r, c, dr, dc, f, g), -(g as int);
    forall i | 0 <= i < |line|
      ensures line[i] == Along(r, c, dr, dc, Distance(f, i)) && lo <= Distance(f, i) <= f
    {
      SegmentCell(r, c, dr, dc, f, g, i);
    }
    forall k | lo <= k <= f
      ensures Along(r, c, dr, dc, k) in line
    {
      var i := if k >= 0 then k else f - k;
      assert Distance(f, i) == k;
      assert line[i] in line;
    }
    forall i, j | 0 <= i < j < |line|
      ensures line[i] != line[j]
    {
      DistancesDiffer(r, c, dr, dc, Distance(f, i), Distance(f, j));
    }
    assert forall i, j :: 0 <= i < j < |line| ==> line[i] != line[j];
    assert forall k :: lo <= k <= f ==> Along(r, c, dr, dc, k) in line;
    forall i | 0 <= i < |line|
      ensures exists k :: lo <= k <= f && line[i] == Along(r, c, dr, dc, k)
    {
      var k := Distance(f, i);
      assert line[i] == Along(r, c, dr, dc, k);
    }
  }

  lemma DistancesDiffer(r: int, c: int, dr: int, dc: int, i: int, j: int)
    requires IsDirection(dr, dc) && i != j
    ensures Along(r, c, dr, dc, i) != Along(r, c, dr, dc, j)
  {
    if dr == 1 {
      assert dr * i == i && dr * j == j;
    } else {
      assert dc * i == i && dc * j == j;
    }
  }

  lemma LineOfIsHeld(b: Grid, r: int, c: int, dr: int, dc: int, p: Cell)
    requires Is(b, r, c, p)
    ensures forall i :: 0 <= i < |LineOf(b, r, c, dr, dc, p)| ==>
              Is(b, LineOf(b, r, c, dr, dc, p)[i].0, LineOf(b, r, c, dr, dc, p)[i].1, p)
  {
    hide RunLength, CellsAlong, Is;
    RunIsHeld(b, r, c, dr, dc, p);
    RunIsHeld(b, r, c, -dr, -dc, p);
    var f := RunLength(b, r, c, dr, dc, p);
    var line := LineOf(b, r, c, dr, dc, p);
    forall i | 0 <= i < |line|
      ensures Is(b, line[i].0, line[i].1, p)
    {
      if 0 < i <= f {
        assert line[i] == CellsAlong(r, c, dr, dc, f)[i - 1];
      } else if i > f {
        assert line[i] == CellsAlong(r, c, -dr, -dc, RunLength(b, r, c, -dr, -dc, p))[i - 1 - f];
      }
    }
  }

  lemma RunIsHeld(b: Grid, r: int, c: int, dr: int, dc: int, p: Cell)
    ensures var cells := CellsAlong(r, c, dr, dc, RunLength(b, r, c, dr, dc, p));
            forall i :: 0 <= i < |cells| ==> Is(b, cells[i].0, cells[i].1, p)
  {
    var cells := CellsAlong(r, c, dr, dc, RunLength(b, r, c, dr, dc, p));
    forall i | 0 <= i < |cells|
      ensures Is(b, cells[i].0, cells[i].1, p)
    {
      assert i == 0 || i == 1 || i == 2;
    }
  }

  /** The line handed back for highlighting: at least four cells in a straight, gap-free
      segment around the last disc, none twice, all held by the winner. */
  lemma WinIsWinningLine(b: Grid, r: int, c: int, p: Cell)
    requires Is(b, r, c, p) && Win(b, r, c, p).Some?
    ensures IsWinningLine(b, Win(b, r, c, p).value, r, c, p)
    ensures (r, c) in Win(b, r, c, p).value
  {
    hide RunLength, CellsAlong, HeldTo, IsSegment, WinFrom, LineInDirection, Is;
    var k := FirstLine(b, r, c, p, 0);
    var (dr, dc) := DIRECTIONS[k];
    SegmentIsSegment(r, c, dr, dc, RunLength(b, r, c, dr, dc, p), RunLength(b, r, c, -dr, -dc, p));
    LineOfIsHeld(b, r, c, dr, dc, p);
    var line := LineOf(b, r, c, dr, dc, p);
    assert line[0] == (r, c);
    assert IsDirection(dr, dc);
    LongestRun(b, r, c, dr, dc, p);
  }

  lemma LongestRun(b: Grid, r: int, c: int, dr: int, dc: int, p: Cell)
    ensures forall k :: -3 <= k <= 3 && HeldTo(b, r, c, dr, dc, k, p) ==>
              -(RunLength(b, r, c, -dr, -dc, p) as int) <= k <= RunLength(b, r, c, dr, dc, p)
  {
    hide Is;
    forall k | -3 <= k <= 3 && HeldTo(b, r, c, dr, dc, k, p)
      ensures -(RunLength(b, r, c, -dr, -dc, p) as int) <= k <= RunLength(b, r, c, dr, dc, p)
    {
      if k > 0 {
        assert Is(b, r + dr * 1, c + dc * 1, p);
        assert k > 1 ==> Is(b, r + dr * 2, c + dc * 2, p);
        assert k > 2 ==> Is(b, r + dr * 3, c + dc * 3, p);
        RunAtLeast(b, r, c, dr, dc, p, k);
      } else if k < 0 {
        assert Is(b, r + dr * -1, c + dc * -1, p);
        assert k < -1 ==> Is(b, r + dr * -2, c + dc * -2, p);
        assert k < -2 ==> Is(b, r + dr * -3, c + dc * -3, p);
        RunAtLeast(b, r, c, -dr, -dc, p, -k);
      }
    }
  }

  lemma {:induction false} FirstLine(b: Grid, r: int, c: int, p: Cell, from: nat) returns (k: nat)
    requires from <= 4 && WinFrom(b, r, c, p, from).Some?
    ensures from <= k < 4 && LineInDirection(b, r, c, DIRECTIONS[k].0, DIRECTIONS[k].1, p)
    ensures WinFrom(b, r, c, p, from) == Some(LineOf(b, r, c, DIRECTIONS[k].0, DIRECTIONS[k].1, p))
    decreases 4 - from
  {
    if LineInDirection(b, r, c, DIRECTIONS[from].0, DIRECTIONS[from].1, p) {
      k := from;
    } else {
      k := FirstLine(b, r, c, p, from + 1);
    }
  }

  // ---------- The local check equals the global one ----------

  lemma RunAtLeast(b: Grid, r: int, c: int, dr: int, dc: int, p: Cell, n: nat)
    requires n <= 3
    requires n > 0 ==> Is(b, r + dr, c + dc, p)
    requires n > 1 ==> Is(b, r + 2 * dr, c + 2 * dc, p)
    requires n > 2 ==> Is(b, r + 3 * dr, c + 3 * dc, p)
    ensures RunLength(b, r, c, dr, dc, p) >= n
  {
  }

  lemma WindowThrough(b: Grid, r: int, c: int, p: Cell, w: Window, j: int)
    requires Four(b, w, p) && 0 <= j < 4 && (r, c) == (w.r + w.dr * j, w.c + w.dc * j)
    ensures LineThrough(b, r, c, p)
  {
    hide RunLength, Is;
    if j == 0 {
      RunAtLeast(b, r, c, w.dr, w.dc, p, 3);
    } else if j == 1 {
      RunAtLeast(b, r, c, w.dr, w.dc, p, 2);
      RunAtLeast(b, r, c, -w.dr, -w.dc, p, 1);
    } else if j == 2 {
      RunAtLeast(b, r, c, w.dr, w.dc, p, 1);
      RunAtLeast(b, r, c, -w.dr, -w.dc, p, 2);
    } else {
      RunAtLeast(b, r, c, -w.dr, -w.dc, p, 3);
    }
    assert LineInDirection(b, r, c, w.dr, w.dc, p);
    assert DIRECTIONS[0] == (w.dr, w.dc) || DIRECTIONS[1] == (w.dr, w.dc) ||
           DIRECTIONS[2] == (w.dr, w.dc) || DIRECTIONS[3] == (w.dr, w.dc);
  }

  lemma LineHoldsWindow(b: Grid, r: int, c: int, dr: int, dc: int, p: Cell)
    requires Is(b, r, c, p) && IsDirection(dr, dc) && LineInDirection(b, r, c, dr, dc, p)
    ensures HasFour(b, p)
  {
    var j := RunLength(b, r, c, -dr, -dc, p);
    hide InBounds;
    if j == 0 {
      assert Four(b, Window(r, c, dr, dc), p);
    } else if j == 1 {
      assert Four(b, Window(r - dr, c - dc, dr, dc), p);
    } else if j == 2 {
      assert Four(b, Window(r - 2 * dr, c - 2 * dc, dr, dc), p);
    } else {
      assert Four(b, Window(r - 3 * dr, c - 3 * dc, dr, dc), p);
    }
  }

  lemma NewFourHoldsDisc(b: Grid, r: int, c: int, p: Player, w: Window) returns (j: int)
    requires InBounds(r, c) && b[r][c] == Empty && !Four(b, w, p) && Four(Put(b, r, c, p), w, p)
    ensures 0 <= j < 4 && (r, c) == (w.r + w.dr * j, w.c + w.dc * j)
  {
    if (r, c) == (w.r, w.c) {
      j := 0;
    } else if (r, c) == (w.r + w.dr, w.c + w.dc) {
      j := 1;
    } else if (r, c) == (w.r + 2 * w.dr, w.c + 2 * w.dc) {
      j := 2;
    } else {
      j := 3;
    }
  }

  /** After a disc of `p` lands on a board where `p` had no four, the check along the lines
      through that disc succeeds exactly when `p` now has a four anywhere on the board. */
  lemma LocalEqualsGlobal(b: Grid, r: int, c: int, p: Player)
    requires InBounds(r, c) && b[r][c] == Empty && !HasFour(b, p)
    ensures LineThrough(Put(b, r, c, p), r, c, p) <==> HasFour(Put(b, r, c, p), p)
  {
    var b' := Put(b, r, c, p);
    assert Is(b', r, c, p);
    hide LineInDirection, Four;
    if HasFour(b', p) {
      var w: Window :| Four(b', w, p);
      var j := NewFourHoldsDisc(b, r, c, p, w);
      WindowThrough(b', r, c, p, w, j);
    }
    if LineThrough(b', r, c, p) {
      var k :| 0 <= k < 4 && LineInDirection(b', r, c, DIRECTIONS[k].0, DIRECTIONS[k].1, p);
      LineHoldsWindow(b', r, c, DIRECTIONS[k].0, DIRECTIONS[k].1, p);
    }
  }

  /** A disc of `p` gives no four to the other player and takes none away. */
  lemma OtherFourUnchanged(b: Grid, r: int, c: int, p: Player, q: Player)
    requires InBounds(r, c) && b[r][c] == Empty && q != p
    ensures HasFour(Put(b, r, c, p), q) <==> HasFour(b, q)
  {
    var b' := Put(b, r, c, p);
    forall w: Window
      ensures Four(b', w, q) <==> Four(b, w, q)
    {
    }
  }
}
