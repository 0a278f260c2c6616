/** The 8x8 board as a value (a sequence of columns, each a sequence of
    tiles, top row first) and what match detection means on it. */
module Board {
  import opened Tiles

  const W: int := 8
  const H: int := 8

  /** A board is indexed b[x][y]: x the column, y = 0 the top row. */
  type Grid = seq<seq<Tile>>

  predicate WellFormed(b: Grid)
  {
    |b| == W && forall x :: 0 <= x < W ==> |b[x]| == H
  }

  /** The invariant of a board at rest: no cell holds Empty. */
  predicate Full(b: Grid)
    requires WellFormed(b)
  {
    forall x, y :: 0 <= x < W && 0 <= y < H ==> b[x][y].kind != Empty
  }

  /** A grid cell (column, row). */
  datatype Cell = Cell(x: int, y: int)

  predicate InGrid(c: Cell)
  {
    0 <= c.x < W && 0 <= c.y < H
  }

  // ---------------------------------------------------------------------------
  // Windows of three and the matched set
  // ---------------------------------------------------------------------------

  predicate Triple(a: Kind, b: Kind, c: Kind)
  {
    a != Empty && a == b && b == c
  }

  /** The horizontal window whose left cell is (x0, y) holds three equal non-Empty kinds. */
  predicate HWin(b: Grid, x0: int, y: int)
    requires WellFormed(b)
  {
    0 <= x0 && x0 + 2 < W && 0 <= y < H &&
    Triple(b[x0][y].kind, b[x0 + 1][y].kind, b[x0 + 2][y].kind)
  }

  /** The vertical window whose top cell is (x, y0) holds three equal non-Empty kinds. */
  predicate VWin(b: Grid, x: int, y0: int)
    requires WellFormed(b)
  {
    0 <= x < W && 0 <= y0 && y0 + 2 < H &&
    Triple(b[x][y0].kind, b[x][y0 + 1].kind, b[x][y0 + 2].kind)
  }

  /** Cell (x, y) lies in a matching horizontal window. */
  predicate HMarked(b: Grid, x: int, y: int)
    requires WellFormed(b)
  {
    HWin(b, x, y) || HWin(b, x - 1, y) || HWin(b, x - 2, y)
  }

  /** Cell (x, y) lies in a matching vertical window. */
  predicate VMarked(b: Grid, x: int, y: int)
    requires WellFormed(b)
  {
    VWin(b, x, y) || VWin(b, x, y - 1) || VWin(b, x, y - 2)
  }

  predicate Marked(b: Grid, x: int, y: int)
    requires WellFormed(b)
  {
    HMarked(b, x, y) || VMarked(b, x, y)
  }

  /** The cells a resolution pass removes. */
  ghost function MatchedCells(b: Grid): (m: set<Cell>)
    requires WellFormed(b)
    ensures forall c :: c in m <==> InGrid(c) && Marked(b, c.x, c.y)
  {
    var m := set x, y | 0 <= x < W && 0 <= y < H && Marked(b, x, y) :: Cell(x, y);
    assert forall c :: InGrid(c) && Marked(b, c.x, c.y) ==> c in m by {
      forall c | InGrid(c) && Marked(b, c.x, c.y) ensures c in m {
        assert c == Cell(c.x, c.y);
      }
    }
    m
  }

  /** The cells at position d (0, 1 or 2) of every matching horizontal window,
      the windows starting at columns 0..W-3 of every row. */
  ghost function HWindowCells(b: Grid, d: int): set<Cell>
    requires WellFormed(b)
  {
    set x0, y | 0 <= x0 <= W - 3 && 0 <= y < H && HWin(b, x0, y) :: Cell(x0 + d, y)
  }

  /** The cells at position d of every matching vertical window, the windows
      starting at rows 0..H-3 of every column. */
  ghost function VWindowCells(b: Grid, d: int): set<Cell>
    requires WellFormed(b)
  {
    set x, y0 | 0 <= x < W && 0 <= y0 <= H - 3 && VWin(b, x, y0) :: Cell(x, y0 + d)
  }

  /** The union of the three cells of every matching window. */
  ghost function WindowUnion(b: Grid): set<Cell>
    requires WellFormed(b)
  {
    HWindowCells(b, 0) + HWindowCells(b, 1) + HWindowCells(b, 2) +
    VWindowCells(b, 0) + VWindowCells(b, 1) + VWindowCells(b, 2)
  }

  /** The matched set is exactly the union of the matching windows. */
  lemma MatchedIsWindowUnion(b: Grid)
    requires WellFormed(b)
    ensures MatchedCells(b) == WindowUnion(b)
  {
    var m := MatchedCells(b);
    forall c | c in m ensures c in WindowUnion(b) {
      if HWin(b, c.x, c.y) {
        assert Cell(c.x + 0, c.y) == c;
        assert c in HWindowCells(b, 0);
      } else if HWin(b, c.x - 1, c.y) {
        assert Cell((c.x - 1) + 1, c.y) == c;
        assert c in HWindowCells(b, 1);
      } else if HWin(b, c.x - 2, c.y) {
        assert Cell((c.x - 2) + 2, c.y) == c;
        assert c in HWindowCells(b, 2);
      } else if VWin(b, c.x, c.y) {
        assert Cell(c.x, c.y + 0) == c;
        assert c in VWindowCells(b, 0);
      } else if VWin(b, c.x, c.y - 1) {
        assert Cell(c.x, (c.y - 1) + 1) == c;
        assert c in VWindowCells(b, 1);
      } else {
        assert Cell(c.x, (c.y - 2) + 2) == c;
        assert c in VWindowCells(b, 2);
      }
    }
  }

  // ---------------------------------------------------------------------------
  // The order in which the scan pushes window cells
  // ---------------------------------------------------------------------------

  /** The cells the horizontal scan pushes for the windows of row y that
      start in columns 0..n-1, in push order: each matching window pushes its
      three cells left to right, so at most three cells per window. */
  function HRowPushes(b: Grid, y: int, n: int): (r: seq<Cell>)
    requires WellFormed(b) && 0 <= y < H && 0 <= n <= W - 2
    ensures |r| <= 3 * n
    decreases n
  {
    if n == 0 then []
    else
      var x := n - 1;
      HRowPushes(b, y, x) + (if HWin(b, x, y) then [Cell(x, y), Cell(x + 1, y), Cell(x + 2, y)] else [])
  }

  /** All horizontal pushes for the rows 0..m-1, row by row: at most 18 per
      row, three for each of its W - 2 windows. */
  function HPushes(b: Grid, m: int): (r: seq<Cell>)
    requires WellFormed(b) && 0 <= m <= H
    ensures |r| <= 18 * m
    decreases m
  {
    if m == 0 then [] else HPushes(b, m - 1) + HRowPushes(b, m - 1, W - 2)
  }

  /** The cells the vertical scan pushes for the windows of column x that
      start in rows 0..n-1, each window top to bottom, at most three cells
      per window. */
  function VColPushes(b: Grid, x: int, n: int): (r: seq<Cell>)
    requires WellFormed(b) && 0 <= x < W && 0 <= n <= H - 2
    ensures |r| <= 3 * n
    decreases n
  {
    if n == 0 then []
    else
      var y := n - 1;
      VColPushes(b, x, y) + (if VWin(b, x, y) then [Cell(x, y), Cell(x, y + 1), Cell(x, y + 2)] else [])
  }

  /** All vertical pushes for the columns 0..m-1, column by column: at most
      18 per column, three for each of its H - 2 windows. */
  function VPushes(b: Grid, m: int): (r: seq<Cell>)
    requires WellFormed(b) && 0 <= m <= W
    ensures |r| <= 18 * m
    decreases m
  {
    if m == 0 then [] else VPushes(b, m - 1) + VColPushes(b, m - 1, H - 2)
  }

  /** The whole list of a scan: every horizontal push, then every vertical
      one; at most 288 cells, three for each of the 96 windows, before
      `sort` and `dedup`. */
  function ScanPushes(b: Grid): (r: seq<Cell>)
    requires WellFormed(b)
    ensures |r| <= 288
  {
    HPushes(b, H) + VPushes(b, W)
  }

  /** A cell is pushed for row y's first n windows exactly when it lies in one
      of them that matches. */
  lemma {:induction false} HRowPushesMembers(b: Grid, y: int, n: int, c: Cell)
    requires WellFormed(b) && 0 <= y < H && 0 <= n <= W - 2
    ensures c in HRowPushes(b, y, n) <==> (c.y == y &&
      ((c.x < n && HWin(b, c.x, y)) || (c.x - 1 < n && HWin(b, c.x - 1, y)) || (c.x - 2 < n && HWin(b, c.x - 2, y))))
    decreases n
  {
    if n > 0 {
      HRowPushesMembers(b, y, n - 1, c);
    }
  }

  lemma {:induction false} HPushesMembers(b: Grid, m: int, c: Cell)
    requires WellFormed(b) && 0 <= m <= H
    ensures c in HPushes(b, m) <==> c.y < m && HMarked(b, c.x, c.y)
    decreases m
  {
    if m > 0 {
      HPushesMembers(b, m - 1, c);
      if c.y == m - 1 {
        HRowPushesMembers(b, m - 1, W - 2, c);
      } else if c in HRowPushes(b, m - 1, W - 2) {
        HRowPushesMembers(b, m - 1, W - 2, c);
      }
    }
  }

  lemma {:induction false} VColPushesMembers(b: Grid, x: int, n: int, c: Cell)
    requires WellFormed(b) && 0 <= x < W && 0 <= n <= H - 2
    ensures c in VColPushes(b, x, n) <==> (c.x == x &&
      ((c.y < n && VWin(b, x, c.y)) || (c.y - 1 < n && VWin(b, x, c.y - 1)) || (c.y - 2 < n && VWin(b, x, c.y - 2))))
    decreases n
  {
    if n > 0 {
      VColPushesMembers(b, x, n - 1, c);
    }
  }

  lemma {:induction false} VPushesMembers(b: Grid, m: int, c: Cell)
    requires WellFormed(b) && 0 <= m <= W
    ensures c in VPushes(b, m) <==> c.x < m && VMarked(b, c.x, c.y)
    decreases m
  {
    if m > 0 {
      VPushesMembers(b, m - 1, c);
      if c.x == m - 1 {
        VColPushesMembers(b, m - 1, H - 2, c);
      } else if c in VColPushes(b, m - 1, H - 2) {
        VColPushesMembers(b, m - 1, H - 2, c);
      }
    }
  }

  /** The scan pushes every matched cell and nothing else. */
  lemma ScanPushesMatched(b: Grid)
    requires WellFormed(b)
    ensures forall c :: c in ScanPushes(b) <==> c in MatchedCells(b)
  {
    var m := MatchedCells(b);
    forall c ensures c in ScanPushes(b) <==> c in m {
      HPushesMembers(b, H, c);
      VPushesMembers(b, W, c);
      assert c in ScanPushes(b) <==> c in HPushes(b, H) || c in VPushes(b, W);
      MarkedInGrid(b, c);
    }
  }

  /** Only cells of the board can be marked. */
  lemma MarkedInGrid(b: Grid, c: Cell)
    requires WellFormed(b)
    ensures Marked(b, c.x, c.y) ==> InGrid(c)
  {
  }

  /** A stable board: no window of three equal non-Empty kinds anywhere. */
  predicate Stable(b: Grid)
    requires WellFormed(b)
  {
    (forall x0, y :: 0 <= x0 < W && 0 <= y < H ==> !HWin(b, x0, y)) &&
    (forall x, y0 :: 0 <= x < W && 0 <= y0 < H ==> !VWin(b, x, y0))
  }

  /** Nothing is matched exactly when the board is stable. */
  lemma NoMatchIffStable(b: Grid)
    requires WellFormed(b)
    ensures MatchedCells(b) == {} <==> Stable(b)
  {
    if !Stable(b) {
      if x0, y :| HWin(b, x0, y) {
        assert Cell(x0, y) in MatchedCells(b);
      } else {
        var x, y0 :| 0 <= x < W && 0 <= y0 < H && VWin(b, x, y0);
        assert VMarked(b, x, y0);
        assert Cell(x, y0) in MatchedCells(b);
      }
    }
  }

  /** A board that is not stable has at least one window of three matched
      cells. */
  lemma UnstableMatchesThree(b: Grid)
    requires WellFormed(b) && !Stable(b)
    ensures |MatchedCells(b)| >= 3
  {
    var m := MatchedCells(b);
    if x0, y :| 0 <= x0 < W && 0 <= y < H && HWin(b, x0, y) {
      assert HMarked(b, x0, y) && HMarked(b, x0 + 1, y) && HMarked(b, x0 + 2, y);
      ThreeMembers(m, Cell(x0, y), Cell(x0 + 1, y), Cell(x0 + 2, y));
    } else {
      var x, y0 :| 0 <= x < W && 0 <= y0 < H && VWin(b, x, y0);
      assert VMarked(b, x, y0) && VMarked(b, x, y0 + 1) && VMarked(b, x, y0 + 2);
      ThreeMembers(m, Cell(x, y0), Cell(x, y0 + 1), Cell(x, y0 + 2));
    }
  }

  lemma ThreeMembers(m: set<Cell>, a: Cell, b: Cell, c: Cell)
    requires a in m && b in m && c in m && a != b && b != c && a != c
    ensures |m| >= 3
  {
    var w := {a, b, c};
    assert m * w == w;
    assert |m - w| == |m| - |w|;
  }

  /** The board after a resolution pass: exactly the matched cells have their
      kind set to Empty (their offsets stay), every other cell is unchanged. */
  function Cleared(b: Grid): (r: Grid)
    requires WellFormed(b)
    ensures WellFormed(r)
  {
    seq(W, x requires 0 <= x < W =>
      seq(H, y requires 0 <= y < H =>
        if Marked(b, x, y) then b[x][y].(kind := Empty) else b[x][y]))
  }

  /** Cell by cell, clearing empties exactly the marked cells. */
  lemma ClearedAt(b: Grid)
    requires WellFormed(b)
    ensures forall x, y :: 0 <= x < W && 0 <= y < H ==>
      Cleared(b)[x][y] == if Marked(b, x, y) then b[x][y].(kind := Empty) else b[x][y]
  {
  }

  /** Clearing a stable board changes nothing. */
  lemma ClearedStable(b: Grid)
    requires WellFormed(b) && Stable(b)
    ensures Cleared(b) == b
  {
    var r := Cleared(b);
    forall x | 0 <= x < W ensures r[x] == b[x] {
    }
  }

  /** A cell is Empty after clearing exactly when it was matched or already Empty. */
  lemma ClearedEmpties(b: Grid, x: int, y: int)
    requires WellFormed(b) && 0 <= x < W && 0 <= y < H
    ensures Cleared(b)[x][y].kind == Empty <==> Cell(x, y) in MatchedCells(b) || b[x][y].kind == Empty
    ensures Cleared(b)[x][y].offset == b[x][y].offset
  {
  }

  // ---------------------------------------------------------------------------
  // Sorting and removing duplicates from the list of marked cells
  // ---------------------------------------------------------------------------

  /** The lexicographic order on (column, row) pairs. */
  predicate Less(a: Cell, b: Cell)
  {
    a.x < b.x || (a.x == b.x && a.y < b.y)
  }

  predicate StrictlySorted(s: seq<Cell>)
  {
    forall i, j :: 0 <= i < j < |s| ==> Less(s[i], s[j])
  }

  /** Inserts c into a sorted list unless it is already there. */
  function Insert(c: Cell, s: seq<Cell>): (r: seq<Cell>)
    ensures forall d :: d in r <==> d == c || d in s
  {
    if s == [] then [c]
    else if c == s[0] then s
    else if Less(c, s[0]) then [c] + s
    else [s[0]] + Insert(c, s[1..])
  }

  lemma {:induction false} InsertSorted(c: Cell, s: seq<Cell>)
    requires StrictlySorted(s)
    ensures StrictlySorted(Insert(c, s))
  {
    if s != [] && c != s[0] && !Less(c, s[0]) {
      InsertSorted(c, s[1..]);
      var t := Insert(c, s[1..]);
      assert forall d :: d in t ==> Less(s[0], d);
    }
  }

  /** The marked list after `sort` and `dedup`: the same cells, in
      (column, row) order, each once. */
  function SortDedup(s: seq<Cell>): (r: seq<Cell>)
    ensures forall d :: d in r <==> d in s
  {
    if s == [] then [] else Insert(s[|s| - 1], SortDedup(s[..|s| - 1]))
  }

  /** ... sorted, and so free of repetitions. */
  lemma {:induction false} SortDedupSorted(s: seq<Cell>)
    ensures StrictlySorted(SortDedup(s))
  {
    if s != [] {
      SortDedupSorted(s[..|s| - 1]);
      InsertSorted(s[|s| - 1], SortDedup(s[..|s| - 1]));
    }
  }

  /** A list without repetitions is as long as the set of its elements. */
  lemma {:induction false} SortedCardinality(s: seq<Cell>)
    requires StrictlySorted(s)
    ensures |set c | c in s| == |s|
  {
    if s != [] {
      SortedCardinality(s[1..]);
      assert (set c | c in s) == {s[0]} + (set c | c in s[1..]);
      assert s[0] !in s[1..];
    }
  }

  // ---------------------------------------------------------------------------
  // Swapping two tiles
  // ---------------------------------------------------------------------------

  /** The board with the whole tiles (kind and offset) at a and c exchanged. */
  function Swapped(b: Grid, a: Cell, c: Cell): (r: Grid)
    requires WellFormed(b) && InGrid(a) && InGrid(c)
    ensures WellFormed(r)
    ensures r[a.x][a.y] == b[c.x][c.y] && r[c.x][c.y] == b[a.x][a.y]
    ensures forall x, y :: 0 <= x < W && 0 <= y < H && Cell(x, y) != a && Cell(x, y) != c ==> r[x][y] == b[x][y]
  {
    seq(W, x requires 0 <= x < W =>
      seq(H, y requires 0 <= y < H =>
        if Cell(x, y) == a then b[c.x][c.y] else if Cell(x, y) == c then b[a.x][a.y] else b[x][y]))
  }

  /** Swapping the same two cells again restores the board. */
  lemma SwapTwice(b: Grid, a: Cell, c: Cell)
    requires WellFormed(b) && InGrid(a) && InGrid(c)
    ensures Swapped(Swapped(b, a, c), a, c) == b
  {
    var r := Swapped(Swapped(b, a, c), a, c);
    forall x | 0 <= x < W ensures r[x] == b[x] {
      assert forall y :: 0 <= y < H ==> r[x][y] == b[x][y];
    }
  }

  /** Swapping keeps a full board full. */
  lemma SwapKeepsFull(b: Grid, a: Cell, c: Cell)
    requires WellFormed(b) && InGrid(a) && InGrid(c) && Full(b)
    ensures Full(Swapped(b, a, c))
  {
  }
}
