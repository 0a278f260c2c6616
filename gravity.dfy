/** Gravity and refill as functions of a column (a sequence of tiles, top row
    first). A column's result depends on that column alone and on the
    position reached in the stream of random draws. */
module Gravity {
  import opened Tiles
  import opened Board

  /** The number of Empty cells of a column. */
  function EmptyCount(c: seq<Tile>): (n: nat)
    ensures n <= |c|
  {
    if c == [] then 0
    else EmptyCount(c[..|c| - 1]) + (if c[|c| - 1].kind == Empty then 1 else 0)
  }

  /** The kinds of the non-Empty cells, top to bottom. */
  function NonEmptyKinds(c: seq<Tile>): (ks: seq<Kind>)
    ensures |ks| + EmptyCount(c) == |c|
    ensures forall k :: 0 <= k < |ks| ==> ks[k] != Empty
  {
    if c == [] then []
    else if c[|c| - 1].kind == Empty then NonEmptyKinds(c[..|c| - 1])
    else NonEmptyKinds(c[..|c| - 1]) + [c[|c| - 1].kind]
  }

  /** The rows of the non-Empty cells, top to bottom. The k-th of them can
      only move down, to row EmptyCount(c) + k at most. */
  function Occupied(c: seq<Tile>): (p: seq<int>)
    ensures |p| + EmptyCount(c) == |c|
  {
    if c == [] then []
    else
      var q := Occupied(c[..|c| - 1]);
      if c[|c| - 1].kind == Empty then q else q + [|c| - 1]
  }

  /** The occupied rows hold non-Empty cells, increase strictly, and the
      k-th lies between row k and row EmptyCount(c) + k. */
  lemma {:induction false} OccupiedRows(c: seq<Tile>)
    ensures forall k :: 0 <= k < |Occupied(c)| ==> 0 <= Occupied(c)[k] < |c| && c[Occupied(c)[k]].kind != Empty
    ensures forall k, l :: 0 <= k < l < |Occupied(c)| ==> Occupied(c)[k] < Occupied(c)[l]
    ensures forall k :: 0 <= k < |Occupied(c)| ==> k <= Occupied(c)[k] <= EmptyCount(c) + k
  {
    if c != [] {
      OccupiedRows(c[..|c| - 1]);
    }
  }

  /** Every non-Empty cell is listed among the occupied rows. */
  lemma {:induction false} OccupiedComplete(c: seq<Tile>, i: int)
    requires 0 <= i < |c|
    ensures c[i].kind != Empty ==> i in Occupied(c)
  {
    if i < |c| - 1 {
      OccupiedComplete(c[..|c| - 1], i);
    }
  }

  /** Between two consecutive non-Empty cells every cell is Empty. */
  lemma GapIsEmpty(c: seq<Tile>, k: int, i: int)
    requires 0 <= k < |Occupied(c)| && 0 <= i < |c|
    requires (k == 0 || Occupied(c)[k - 1] < i) && i < Occupied(c)[k]
    ensures c[i].kind == Empty
  {
    var p := Occupied(c);
    OccupiedRows(c);
    OccupiedComplete(c, i);
    forall l | 0 <= l < |p| ensures p[l] != i {
      if l < k {
        assert k == 0 || p[l] <= p[k - 1];
      } else {
        assert p[k] <= p[l];
      }
    }
  }

  /** The non-Empty kinds are the kinds found at the occupied rows. */
  lemma {:induction false} NonEmptyKindsAtOccupied(c: seq<Tile>)
    ensures |NonEmptyKinds(c)| == |Occupied(c)|
    ensures forall k :: 0 <= k < |Occupied(c)| ==> 0 <= Occupied(c)[k] < |c|
    ensures forall k :: 0 <= k < |Occupied(c)| ==> NonEmptyKinds(c)[k] == c[Occupied(c)[k]].kind
  {
    OccupiedRows(c);
    if c != [] {
      var c' := c[..|c| - 1];
      NonEmptyKindsAtOccupied(c');
      assert forall i :: 0 <= i < |c'| ==> c'[i] == c[i];
    }
  }

  /** A tile of a column after step 1 of gravity (compaction). The k-th
      non-Empty tile ends up in row EmptyCount(c) + k; if that is a new row
      its offset records the distance fallen, otherwise it is untouched. The
      cells above keep their offset and hold Empty. */
  function CompactedAt(c: seq<Tile>, j: int): (t: Tile)
    requires 0 <= j < |c|
    ensures t.kind == Empty <==> j < EmptyCount(c)
  {
    OccupiedRows(c);
    var e := EmptyCount(c);
    var p := Occupied(c);
    if j < e then c[j].(kind := Empty)
    else
      var i := p[j - e];
      if i == j then c[i] else Tile(c[i].kind, Fell(j - i))
  }

  function Compacted(c: seq<Tile>): (r: seq<Tile>)
    ensures |r| == |c|
    ensures forall j :: 0 <= j < |c| ==> r[j] == CompactedAt(c, j)
  {
    seq(|c|, j requires 0 <= j < |c| => CompactedAt(c, j))
  }

  /** The column while step 1 runs bottom to top, once the rows y and below
      are done: those rows hold their final tiles; above them the tiles not
      yet moved (the first y - EmptyCount(c) non-Empty ones) are still where
      they were, and every other cell has become (or was) Empty, keeping its
      offset. */
  function Compacting(c: seq<Tile>, y: int): (r: seq<Tile>)
    requires 0 <= y <= |c|
    ensures |r| == |c|
  {
    var e := EmptyCount(c);
    var p := Occupied(c);
    var q := if y > e then y - e else 0;
    seq(|c|, j requires 0 <= j < |c| =>
      if j >= y then CompactedAt(c, j)
      else if q > 0 && j <= p[q - 1] then c[j]
      else c[j].(kind := Empty))
  }

  /** Before step 1 starts the column is as it was. */
  lemma CompactingStart(c: seq<Tile>)
    ensures Compacting(c, |c|) == c
  {
    var p := Occupied(c);
    OccupiedRows(c);
    var r := Compacting(c, |c|);
    forall j | 0 <= j < |c| ensures r[j] == c[j] {
      if |p| == 0 || j > p[|p| - 1] {
        TrailingEmpty(c, j);
      }
    }
  }

  /** Below the last non-Empty cell every cell is Empty. */
  lemma TrailingEmpty(c: seq<Tile>, j: int)
    requires 0 <= j < |c|
    requires |Occupied(c)| == 0 || Occupied(c)[|Occupied(c)| - 1] < j
    ensures c[j].kind == Empty
  {
    OccupiedRows(c);
    OccupiedComplete(c, j);
    var p := Occupied(c);
    forall k | 0 <= k < |p| ensures p[k] != j {
      if k < |p| - 1 {
        assert p[k] < p[|p| - 1];
      }
    }
  }

  /** When step 1 is done the column is compacted. */
  lemma CompactingEnd(c: seq<Tile>)
    ensures Compacting(c, 0) == Compacted(c)
  {
  }

  /** Processing row j leaves the column alone when row j holds a tile, or
      when it is Empty and so is every row above it. */
  lemma CompactingStay(c: seq<Tile>, j: int)
    requires 0 <= j < |c|
    requires var s := Compacting(c, j + 1);
      s[j].kind != Empty || forall i :: 0 <= i < j ==> s[i].kind == Empty
    ensures Compacting(c, j) == Compacting(c, j + 1)
  {
    var e, p := EmptyCount(c), Occupied(c);
    OccupiedRows(c);
    var s, r := Compacting(c, j + 1), Compacting(c, j);
    if j >= e {
      var k := j - e;
      assert s[p[k]] == c[p[k]];
      assert p[k] == j;
      forall i | 0 <= i < |c| ensures r[i] == s[i] {
        if i < j && !(k > 0 && i <= p[k - 1]) {
          GapIsEmpty(c, k, i);
        }
      }
    } else {
      forall i | 0 <= i < |c| ensures r[i] == s[i] {
      }
    }
  }

  /** Processing an Empty row j below a tile: the nearest tile above, at row
      src, moves down into row j having fallen j - src rows, and row src is
      left Empty with its offset. */
  lemma CompactingMove(c: seq<Tile>, j: int, src: int)
    requires 0 <= src < j < |c|
    requires var s := Compacting(c, j + 1);
      s[j].kind == Empty && s[src].kind != Empty &&
      forall i :: src < i < j ==> s[i].kind == Empty
    ensures var s := Compacting(c, j + 1);
      Compacting(c, j) == s[j := s[src].(offset := Fell(j - src))][src := s[src].(kind := Empty)]
  {
    var e, p := EmptyCount(c), Occupied(c);
    OccupiedRows(c);
    var s, r := Compacting(c, j + 1), Compacting(c, j);
    assert j >= e;
    var k := j - e;
    assert p[k] < j;
    assert src == p[k] by {
      assert s[p[k]].kind != Empty;
    }
    var t := s[j := s[src].(offset := Fell(j - src))][src := s[src].(kind := Empty)];
    forall i | 0 <= i < |c| ensures r[i] == t[i] {
      if i < p[k] && !(k > 0 && i <= p[k - 1]) {
        GapIsEmpty(c, k, i);
      }
    }
  }

  /** Step 1 moves no tile out of its column and keeps the column's non-Empty
      kinds, in their top-to-bottom order, in a contiguous bottom segment
      with only Empty cells above it. */
  lemma CompactedKinds(c: seq<Tile>)
    ensures forall j :: 0 <= j < EmptyCount(c) ==> Compacted(c)[j].kind == Empty
    ensures forall j :: EmptyCount(c) <= j < |c| ==>
      Compacted(c)[j].kind == NonEmptyKinds(c)[j - EmptyCount(c)]
  {
    CompactedBottom(c);
  }

  /** Compaction neither loses, adds nor reorders a non-Empty kind. */
  lemma CompactedKeepsKinds(c: seq<Tile>)
    ensures NonEmptyKinds(Compacted(c)) == NonEmptyKinds(c)
  {
    CompactedBottom(c);
    SegmentIs(Compacted(c), EmptyCount(c), NonEmptyKinds(c));
  }

  lemma CompactedBottom(c: seq<Tile>)
    ensures forall j :: EmptyCount(c) <= j < |c| ==>
      Compacted(c)[j].kind == NonEmptyKinds(c)[j - EmptyCount(c)]
  {
    NonEmptyKindsAtOccupied(c);
    OccupiedRows(c);
    var r := Compacted(c);
    var e := EmptyCount(c);
    forall j | e <= j < |c| ensures r[j].kind == NonEmptyKinds(c)[j - e] {
      assert r[j] == CompactedAt(c, j);
    }
  }

  /** The non-Empty kinds of a column made of e Empty cells above non-Empty ones
      are the kinds of its bottom segment. */
  lemma {:induction false} SegmentKinds(r: seq<Tile>, e: int)
    requires 0 <= e <= |r|
    requires forall j :: 0 <= j < e ==> r[j].kind == Empty
    requires forall j :: e <= j < |r| ==> r[j].kind != Empty
    ensures |NonEmptyKinds(r)| == |r| - e
    ensures forall k :: 0 <= k < |r| - e ==> NonEmptyKinds(r)[k] == r[e + k].kind
  {
    if |r| > e {
      var r' := r[..|r| - 1];
      SegmentKinds(r', e);
    } else if r != [] {
      EmptyPrefixKinds(r);
    }
  }

  lemma SegmentIs(r: seq<Tile>, e: int, ks: seq<Kind>)
    requires 0 <= e <= |r| && |ks| == |r| - e
    requires forall j :: 0 <= j < e ==> r[j].kind == Empty
    requires forall k :: 0 <= k < |ks| ==> ks[k] != Empty && r[e + k].kind == ks[k]
    ensures NonEmptyKinds(r) == ks
  {
    forall j | e <= j < |r| ensures r[j].kind != Empty {
      assert r[e + (j - e)].kind == ks[j - e];
    }
    SegmentKinds(r, e);
  }

  lemma {:induction false} EmptyPrefixKinds(r: seq<Tile>)
    requires forall j :: 0 <= j < |r| ==> r[j].kind == Empty
    ensures NonEmptyKinds(r) == []
  {
    if r != [] {
      EmptyPrefixKinds(r[..|r| - 1]);
    }
  }

  /** A freshly spawned tile: a random kind, placed off-screen above the board. */
  function Spawn(draw: int): (t: Tile)
    ensures t == Tile(KindOfDraw(draw), Spawned)
  {
    NewRandom(draw).(offset := Spawned)
  }

  /** A column after both steps of gravity: the compacted column with each of
      its top EmptyCount(c) cells, top to bottom, replaced by a tile spawned
      from the next draw of the stream. */
  function Settled(c: seq<Tile>, rng: nat -> int, pos: nat): (r: seq<Tile>)
    ensures |r| == |c|
  {
    seq(|c|, j requires 0 <= j < |c| => SettledAt(c, rng, pos, j))
  }

  /** A settled column has no Empty cell: its top EmptyCount(c) cells are the
      next draws, in order, spawned above the board, and below them the
      compacted column is unchanged. */
  lemma SettledCells(c: seq<Tile>, rng: nat -> int, pos: nat)
    ensures forall j :: 0 <= j < |c| ==> Settled(c, rng, pos)[j].kind != Empty
    ensures forall j :: 0 <= j < EmptyCount(c) ==> Settled(c, rng, pos)[j] == Tile(KindOfDraw(rng(pos + j)), Spawned)
    ensures forall j :: EmptyCount(c) <= j < |c| ==> Settled(c, rng, pos)[j] == Compacted(c)[j]
  {
  }

  function SettledAt(c: seq<Tile>, rng: nat -> int, pos: nat, j: int): (t: Tile)
    requires 0 <= j < |c|
    ensures t.kind != Empty
  {
    if j < EmptyCount(c) then Spawn(rng(pos + j)) else CompactedAt(c, j)
  }

  /** After gravity the column holds its old non-Empty kinds, in order, at
      the bottom, and exactly as many spawned tiles as it had Empty cells on top. */
  lemma SettledKeepsKinds(c: seq<Tile>, rng: nat -> int, pos: nat)
    ensures forall k :: 0 <= k < |c| - EmptyCount(c) ==>
      Settled(c, rng, pos)[EmptyCount(c) + k].kind == NonEmptyKinds(c)[k]
    ensures |NonEmptyKinds(c)| == |c| - EmptyCount(c)
  {
    CompactedKinds(c);
    NonEmptyKindsAtOccupied(c);
    SettledCells(c, rng, pos);
  }

  /** A column without Empty cells is left as it is. */
  lemma SettledFullColumn(c: seq<Tile>, rng: nat -> int, pos: nat)
    requires forall j :: 0 <= j < |c| ==> c[j].kind != Empty
    ensures Settled(c, rng, pos) == c
  {
    var p := Occupied(c);
    NoEmptyCount(c);
    OccupiedRows(c);
    var r := Settled(c, rng, pos);
    SettledCells(c, rng, pos);
    forall j | 0 <= j < |c| ensures r[j] == c[j] {
      assert p[j] == j;
    }
  }

  lemma {:induction false} NoEmptyCount(c: seq<Tile>)
    requires forall j :: 0 <= j < |c| ==> c[j].kind != Empty
    ensures EmptyCount(c) == 0
  {
    if c != [] {
      NoEmptyCount(c[..|c| - 1]);
    }
  }

  /** Empty cells in all columns of cols together. */
  function EmptiesIn(cols: seq<seq<Tile>>): nat
  {
    if cols == [] then 0 else EmptiesIn(cols[..|cols| - 1]) + EmptyCount(cols[|cols| - 1])
  }

  /** The board after gravity: column by column, left to right, each column
      drawing its spawns from where the previous one stopped. */
  function GravityBoard(b: Grid, rng: nat -> int, pos: nat): (r: Grid)
    requires WellFormed(b)
    ensures WellFormed(r)
  {
    Gravitating(b, rng, pos, W)
  }

  /** The board while apply_gravity runs, once the first x columns are done:
      those are settled, each drawing from where the columns to its left
      stopped, and the others are untouched. */
  function Gravitating(b: Grid, rng: nat -> int, pos: nat, x: int): (r: Grid)
    requires WellFormed(b) && 0 <= x <= W
    ensures WellFormed(r)
  {
    seq(W, i requires 0 <= i < W => if i < x then Settled(b[i], rng, pos + EmptiesIn(b[..i])) else b[i])
  }

  /** After gravity the board is full and each column is settled, drawing from
      the position where the columns to its left stopped. */
  lemma GravityBoardColumns(b: Grid, rng: nat -> int, pos: nat)
    requires WellFormed(b)
    ensures Full(GravityBoard(b, rng, pos))
    ensures forall x :: 0 <= x < W ==> GravityBoard(b, rng, pos)[x] == Settled(b[x], rng, pos + EmptiesIn(b[..x]))
  {
    var r: Grid := GravityBoard(b, rng, pos);
    forall x | 0 <= x < W ensures forall y :: 0 <= y < H ==> r[x][y].kind != Empty {
      SettledCells(b[x], rng, pos + EmptiesIn(b[..x]));
    }
  }

  lemma GravitatingStart(b: Grid, rng: nat -> int, pos: nat)
    requires WellFormed(b)
    ensures Gravitating(b, rng, pos, 0) == b
  {
  }

  /** Doing column x settles it and leaves every other column as it was. */
  lemma GravitatingStep(b: Grid, rng: nat -> int, pos: nat, x: int)
    requires WellFormed(b) && 0 <= x < W
    ensures Gravitating(b, rng, pos, x)[x] == b[x]
    ensures Gravitating(b, rng, pos, x + 1) ==
      Gravitating(b, rng, pos, x)[x := Settled(b[x], rng, pos + EmptiesIn(b[..x]))]
    ensures EmptiesIn(b[..x + 1]) == EmptiesIn(b[..x]) + EmptyCount(b[x])
  {
    SettlingColumn(b, rng, pos, x);
    EmptiesStep(b, x);
  }

  lemma SettlingColumn(b: Grid, rng: nat -> int, pos: nat, x: int)
    requires WellFormed(b) && 0 <= x < W
    ensures Gravitating(b, rng, pos, x + 1) ==
      Gravitating(b, rng, pos, x)[x := Settled(b[x], rng, pos + EmptiesIn(b[..x]))]
  {
    var g0, g1 := Gravitating(b, rng, pos, x), Gravitating(b, rng, pos, x + 1);
    assert g1[x] == Settled(b[x], rng, pos + EmptiesIn(b[..x]));
    assert forall i | 0 <= i < W && i != x :: g1[i] == g0[i];
  }

  lemma EmptiesStep(cols: seq<seq<Tile>>, x: int)
    requires 0 <= x < |cols|
    ensures EmptiesIn(cols[..x + 1]) == EmptiesIn(cols[..x]) + EmptyCount(cols[x])
  {
    assert cols[..x + 1][..x] == cols[..x];
  }
}
