/** The game state object: the 8x8 grid of tiles stored in place, the
    selection, and the progression fields, with the board-resolution engine
    (match resolution, gravity and refill, the cascade) and the per-frame
    update as methods that change them. */
module Game {
  import opened Tiles
  import opened Board
  import opened Gravity
  import opened Cascade
  import opened Controls
  import opened Progression
  import opened Frames

  class GameState {
    var grid: array2<Tile>
    var selected: Option<Cell>
    var totalPoints: int
    var spentPoints: int
    /** Kept for its initial value; nothing in the game reads it. */
    var target: int
    var level: int
    var phase: Phase
    var isFarming: bool

    /** The random number generator, as the stream of draws it will make:
        rng(n) is the (n+1)-th call's result. The source draws from 0 to 4;
        the model accepts any integer. */
    const rng: nat -> int
    /** How many draws have been made so far. */
    var drawn: nat
    /** Fuel for a cascade: how many passes may follow its first one. */
    const budget: nat

    /** The grid as a value, column by column; every method keeps it equal
        to the array. */
    ghost var board: Grid

    /** The array has the board's shape and holds exactly `board`. */
    ghost predicate Tied()
      reads this, grid
    {
      grid.Length0 == W && grid.Length1 == H && WellFormed(board) &&
      forall x, y :: 0 <= x < W && 0 <= y < H ==> grid[x, y] == board[x][y]
    }

    ghost function Prog(): Progress
      reads this
    {
      Progress(totalPoints, spentPoints, level, phase, isFarming)
    }

    /** The state between frames: a full board, a progression that keeps
        its invariant, and a selection on the board. */
    ghost predicate Valid()
      reads this, grid
    {
      Tied() && Full(board) && Inv(Prog()) && SelectionOk(selected) && target == 1000
    }

    /** A new game: every cell gets a fresh random tile, column by column,
        then the cascade clears the initial matches, and its points count.
        The progression starts at level 1, Playing, not farming. */
    constructor (rng: nat -> int, budget: nat)
      ensures Valid()
      ensures this.rng == rng && this.budget == budget
      ensures var r := Run(Dealt(rng), rng, W * H, budget);
        board == r.board && drawn == r.drawn && totalPoints == r.points
      ensures spentPoints == 0 && level == 1 && phase == Playing && !isFarming
      ensures selected == None && target == 1000
    {
      var g := DealGrid(rng);
      grid := g;
      selected := None;
      totalPoints := 0;
      spentPoints := 0;
      target := 1000;
      level := 1;
      phase := Playing;
      isFarming := false;
      this.rng := rng;
      this.budget := budget;
      drawn := W * H;
      board := Dealt(rng);
      new;
      InitialCascade();
    }

    /** The loop of new that clears the initial matches; what it scores
        counts. */
    method InitialCascade()
      requires Tied() && Full(board) && SelectionOk(selected) && target == 1000
      requires Inv(Prog()) && phase == Playing
      modifies this`board, this`drawn, this`totalPoints, grid
      ensures Valid()
      ensures var r := Run(old(board), rng, old(drawn), budget);
        board == r.board && drawn == r.drawn && totalPoints == old(totalPoints) + r.points
    {
      var _ := Cascade();
    }

    /** get_leaves_wallet: the leaves the player can spend. */
    method LeavesWallet() returns (w: int)
      ensures w == Wallet(Prog())
      ensures Inv(Prog()) ==> w >= 0
    {
      w := totalPoints - spentPoints;
    }

    // -------------------------------------------------------------------------
    // Match resolution
    // -------------------------------------------------------------------------

    /** The scan of resolve_matches: horizontal windows row by row, then
        vertical windows column by column; every matching window pushes its
        three cells. */
    method ScanWindows() returns (found: seq<Cell>)
      requires Tied()
      ensures found == ScanPushes(board)
      ensures forall c :: c in found <==> c in MatchedCells(board)
    {
      var hs := ScanRows();
      var vs := ScanColumns();
      found := hs + vs;
      ScanPushesMatched(board);
    }

    /** The horizontal half of the scan. */
    method ScanRows() returns (found: seq<Cell>)
      requires Tied()
      ensures found == HPushes(board, H)
    {
      ghost var b: Grid := board;
      found := [];
      for y := 0 to H
        invariant found == HPushes(b, y)
      {
        for x := 0 to W - 2
          invariant found == HPushes(b, y) + HRowPushes(b, y, x)
        {
          var t1, t2, t3 := grid[x, y].kind, grid[x + 1, y].kind, grid[x + 2, y].kind;
          ghost var w := if HWin(b, x, y) then [Cell(x, y), Cell(x + 1, y), Cell(x + 2, y)] else [];
          assert HRowPushes(b, y, x + 1) == HRowPushes(b, y, x) + w;
          if t1 != Empty && t1 == t2 && t2 == t3 {
            found := found + [Cell(x, y), Cell(x + 1, y), Cell(x + 2, y)];
          }
          assert HPushes(b, y) + HRowPushes(b, y, x) + w == HPushes(b, y) + HRowPushes(b, y, x + 1);
        }
      }
    }

    /** The vertical half of the scan. */
    method ScanColumns() returns (found: seq<Cell>)
      requires Tied()
      ensures found == VPushes(board, W)
    {
      ghost var b: Grid := board;
      found := [];
      for x := 0 to W
        invariant found == VPushes(b, x)
      {
        for y := 0 to H - 2
          invariant found == VPushes(b, x) + VColPushes(b, x, y)
        {
          var t1, t2, t3 := grid[x, y].kind, grid[x, y + 1].kind, grid[x, y + 2].kind;
          ghost var w := if VWin(b, x, y) then [Cell(x, y), Cell(x, y + 1), Cell(x, y + 2)] else [];
          assert VColPushes(b, x, y + 1) == VColPushes(b, x, y) + w;
          if t1 != Empty && t1 == t2 && t2 == t3 {
            found := found + [Cell(x, y), Cell(x, y + 1), Cell(x, y + 2)];
          }
          assert VPushes(b, x) + VColPushes(b, x, y) + w == VPushes(b, x) + VColPushes(b, x, y + 1);
        }
      }
    }

    /** The first half of resolve_matches: the scanned cells, sorted and
        without repetitions, are the matched cells, each listed once. */
    method MarkedCells() returns (toRemove: seq<Cell>)
      requires Tied()
      ensures forall c :: c in toRemove <==> InGrid(c) && Marked(board, c.x, c.y)
      ensures |toRemove| == |MatchedCells(board)|
      ensures |toRemove| == 0 <==> Stable(board)
    {
      var found := ScanWindows();
      toRemove := SortDedup(found);
      MarkedList(board, found, toRemove);
    }

    /** resolve_matches: finds the matched cells, scores 10 points for each
        distinct one, and empties them; reports whether there were any. */
    method ResolveMatches() returns (hadMatches: bool)
      requires Tied()
      modifies this`totalPoints, this`board, grid
      ensures Tied()
      ensures hadMatches <==> !Stable(old(board))
      ensures board == Cleared(old(board))
      ensures totalPoints == old(totalPoints) + 10 * |MatchedCells(old(board))|
    {
      ghost var b: Grid := board;
      var toRemove := MarkedCells();
      if |toRemove| == 0 {
        ClearedStable(b);
        return false;
      }
      var points := |toRemove| * 10;
      totalPoints := totalPoints + points;
      EmptyCells(toRemove);
      EmptiedIsCleared(b, toRemove);
      return true;
    }

    /** The write loop of resolve_matches: each listed cell gets kind Empty
        and keeps its offset. */
    method EmptyCells(cells: seq<Cell>)
      requires Tied() && forall c :: c in cells ==> InGrid(c)
      modifies this`board, grid
      ensures Tied()
      ensures board == Emptied(old(board), cells)
    {
      ghost var b: Grid := board;
      for i := 0 to |cells|
        invariant forall x, y :: 0 <= x < W && 0 <= y < H ==>
          grid[x, y] == if Cell(x, y) in cells[..i] then b[x][y].(kind := Empty) else b[x][y]
      {
        var c := cells[i];
        assert c in cells;
        grid[c.x, c.y] := grid[c.x, c.y].(kind := Empty);
        assert cells[..i + 1] == cells[..i] + [c];
      }
      assert cells[..|cells|] == cells;
      board := Emptied(b, cells);
    }

    // -------------------------------------------------------------------------
    // Gravity and refill
    // -------------------------------------------------------------------------

    /** The search of step 1 of apply_gravity: the nearest non-Empty cell
        above row y of column x, if there is one. */
    method NearestAbove(x: int, y: int) returns (src: Option<int>)
      requires grid.Length0 == W && grid.Length1 == H && 0 <= x < W && 0 <= y < H
      ensures src.None? ==> forall i :: 0 <= i < y ==> grid[x, i].kind == Empty
      ensures src.Some? ==> 0 <= src.value < y && grid[x, src.value].kind != Empty
      ensures src.Some? ==> forall i :: src.value < i < y ==> grid[x, i].kind == Empty
    {
      var sy := y;
      while sy > 0
        invariant 0 <= sy <= y
        invariant forall i :: sy <= i < y ==> grid[x, i].kind == Empty
      {
        sy := sy - 1;
        if grid[x, sy].kind != Empty {
          return Some(sy);
        }
      }
      return None;
    }

    /** Step 1 of apply_gravity on column x: bottom to top, every Empty cell
        takes the nearest tile above it, which records how far it fell. */
    method CompactColumn(x: int)
      requires Tied() && 0 <= x < W
      modifies this`board, grid
      ensures Tied()
      ensures board == old(board)[x := Compacted(old(board)[x])]
    {
      ghost var b: Grid := board;
      ghost var c := b[x];
      CompactingStart(c);
      var y := H;
      while y > 0
        invariant 0 <= y <= H
        invariant forall j :: 0 <= j < H ==> grid[x, j] == Compacting(c, y)[j]
        invariant forall x', j :: 0 <= x' < W && x' != x && 0 <= j < H ==> grid[x', j] == b[x'][j]
      {
        y := y - 1;
        if grid[x, y].kind == Empty {
          var found := NearestAbove(x, y);
          if found.Some? {
            var sy := found.value;
            CompactingMove(c, y, sy);
            grid[x, y] := grid[x, sy].(offset := Fell(y - sy));
            grid[x, sy] := grid[x, sy].(kind := Empty);
          } else {
            CompactingStay(c, y);
          }
        } else {
          CompactingStay(c, y);
        }
      }
      CompactingEnd(c);
      board := b[x := Compacted(c)];
    }

    /** Step 2 of apply_gravity on column x, once compacted from c: top to
        bottom, every Empty cell gets a new random tile spawned above the
        board, one draw each. */
    method RefillColumn(x: int, ghost c: seq<Tile>)
      requires Tied() && 0 <= x < W && |c| == H && board[x] == Compacted(c)
      modifies this`board, this`drawn, grid
      ensures Tied()
      ensures board == old(board)[x := Settled(c, rng, old(drawn))]
      ensures drawn == old(drawn) + EmptyCount(c)
    {
      ghost var b: Grid := board;
      ghost var pos := drawn;
      ghost var e := EmptyCount(c);
      for y := 0 to H
        invariant drawn == pos + (if y < e then y else e)
        invariant forall j :: 0 <= j < y ==> grid[x, j] == Settled(c, rng, pos)[j]
        invariant forall j :: y <= j < H ==> grid[x, j] == Compacted(c)[j]
        invariant forall x', j :: 0 <= x' < W && x' != x && 0 <= j < H ==> grid[x', j] == b[x'][j]
      {
        if grid[x, y].kind == Empty {
          var t := NewRandom(rng(drawn));
          drawn := drawn + 1;
          grid[x, y] := t.(offset := Spawned);
        }
      }
      board := b[x := Settled(c, rng, pos)];
    }

    /** One column of apply_gravity: both steps. */
    method SettleColumn(x: int)
      requires Tied() && 0 <= x < W
      modifies this`board, this`drawn, grid
      ensures Tied()
      ensures board == old(board)[x := Settled(old(board)[x], rng, old(drawn))]
      ensures drawn == old(drawn) + EmptyCount(old(board)[x])
    {
      ghost var b: Grid := board;
      CompactColumn(x);
      RefillColumn(x, b[x]);
      UpdateTwice(b, x, Compacted(b[x]), Settled(b[x], rng, old(drawn)));
    }

    /** apply_gravity: both steps, column by column from the left. */
    method ApplyGravity()
      requires Tied()
      modifies this`board, this`drawn, grid
      ensures Tied()
      ensures board == GravityBoard(old(board), rng, old(drawn))
      ensures drawn == old(drawn) + EmptiesIn(old(board))
    {
      ghost var b0: Grid := board;
      ghost var pos := drawn;
      GravitatingStart(b0, rng, pos);
      for x := 0 to W
        invariant Tied()
        invariant board == Gravitating(b0, rng, pos, x)
        invariant drawn == pos + EmptiesIn(b0[..x])
      {
        ghost var before, d := board, drawn;
        SettleColumn(x);
        GravitatingNext(b0, rng, pos, x, before, d, board);
      }
      assert b0[..W] == b0;
    }

    // -------------------------------------------------------------------------
    // Swapping and the cascade
    // -------------------------------------------------------------------------

    /** The swap of update: the tiles of cells a and c trade places. */
    method SwapTiles(a: Cell, c: Cell)
      requires Tied() && InGrid(a) && InGrid(c)
      modifies this`board, grid
      ensures Tied()
      ensures board == Swapped(old(board), a, c)
    {
      ghost var b: Grid := board;
      var temp := grid[a.x, a.y];
      grid[a.x, a.y] := grid[c.x, c.y];
      grid[c.x, c.y] := temp;
      board := Swapped(b, a, c);
    }

    /** One round of the cascade loop: resolve_matches, then apply_gravity if
        it found matches. On an unstable board this is one pass. */
    method ResolveAndFall() returns (hadMatches: bool)
      requires Tied()
      modifies this`board, this`drawn, this`totalPoints, grid
      ensures Tied()
      ensures hadMatches <==> !Stable(old(board))
      ensures !hadMatches ==> board == old(board) && drawn == old(drawn) && totalPoints == old(totalPoints)
      ensures hadMatches ==> var p := OnePass(old(board), rng, old(drawn));
        board == p.board && drawn == p.drawn && totalPoints == old(totalPoints) + 10 * p.removed
    {
      ghost var b, d := board, drawn;
      hadMatches := ResolveMatches();
      if !hadMatches {
        ClearedStable(b);
        return;
      }
      ApplyGravity();
      OnePassIs(b, rng, d);
    }

    /** The cascade of new and update: resolve matches and apply gravity until
        a resolution finds nothing, or until the budget of passes is spent.
        It ends as Run says and scores its points. */
    method Cascade() returns (stable: bool)
      requires Tied()
      modifies this`board, this`drawn, this`totalPoints, grid
      ensures Tied()
      ensures var r := Run(old(board), rng, old(drawn), budget);
        board == r.board && drawn == r.drawn && totalPoints == old(totalPoints) + r.points && stable == r.stable
      ensures stable ==> Stable(board)
    {
      ghost var r0 := Run(board, rng, drawn, budget);
      ghost var p0 := totalPoints;
      var left := budget;
      while true
        invariant Tied()
        invariant Continues(r0, totalPoints - p0, Run(board, rng, drawn, left))
        decreases left
      {
        var hadMatches, rest := CascadePass(r0, p0, left);
        if !hadMatches {
          return true;
        }
        if left == 0 {
          return false;
        }
        left := rest;
      }
    }

    /** One round of the cascade loop: resolve the matches and, if there were
        any, let the board fall. `r0` is where the whole cascade ends and `p0`
        the points it started from. */
    method CascadePass(ghost r0: Outcome, ghost p0: int, left: nat) returns (hadMatches: bool, rest: nat)
      requires Tied()
      requires Continues(r0, totalPoints - p0, Run(board, rng, drawn, left))
      modifies this`board, this`drawn, this`totalPoints, grid
      ensures Tied()
      ensures !hadMatches ==>
        r0.board == board && r0.drawn == drawn && r0.points == totalPoints - p0 && r0.stable
      ensures hadMatches && left == 0 ==>
        r0.board == board && r0.drawn == drawn && r0.points == totalPoints - p0 && !r0.stable
      ensures hadMatches && left > 0 ==>
        rest + 1 == left && Continues(r0, totalPoints - p0, Run(board, rng, drawn, rest))
    {
      ghost var b, d, gained := board, drawn, totalPoints - p0;
      rest := 0;
      hadMatches := ResolveAndFall();
      if !hadMatches {
        EndsWhenStable(r0, gained, b, rng, d, left);
      } else if left == 0 {
        EndsAfterPass(r0, gained, b, rng, d);
      } else {
        rest := left - 1;
        ContinuesAfterPass(r0, gained, b, rng, d, left, rest);
      }
    }

    // -------------------------------------------------------------------------
    // The frame update
    // -------------------------------------------------------------------------

    /** One frame of update with that frame's input. A Playing frame runs
        the click logic and then the threshold check; the other phases only
        move through the progression. */
    method Update(input: Input)
      requires Valid()
      modifies this, grid
      ensures Valid() && grid == old(grid)
      ensures var f := if old(phase) == Playing
          then PlayingFrame(old(board), old(selected), rng, old(drawn), budget, old(isFarming), input)
          else Frame(old(board), old(drawn), old(selected), 0);
        board == f.board && drawn == f.drawn && selected == f.selected &&
        Prog() == Step(old(Prog()), Descend(input), input.enter, input.keyF, input.space, f.gained)
    {
      ghost var p := Prog();
      ghost var gained :=
        if phase == Playing then PlayingFrame(board, selected, rng, drawn, budget, isFarming, input).gained else 0;
      match phase {
        case Playing => PlayingUpdate(input);
        case LevelTransition => TransitionUpdate(input);
        case Shop => ShopUpdate(input);
      }
      StepKeepsInv(p, Descend(input), input.enter, input.keyF, input.space, gained);
    }

    /** A Playing frame: the mouse logic, then the level threshold check. */
    method PlayingUpdate(input: Input)
      requires Valid() && phase == Playing
      modifies this`board, this`drawn, this`totalPoints, this`selected, this`phase, grid
      ensures Tied() && Full(board) && SelectionOk(selected)
      ensures var f := PlayingFrame(old(board), old(selected), rng, old(drawn), budget, isFarming, input);
        board == f.board && drawn == f.drawn && selected == f.selected &&
        Prog() == PlayingStep(old(Prog()), Descend(input), f.gained)
    {
      PlayingClick(input);
      if totalPoints >= level * PointsPerLevel && !isFarming {
        phase := LevelTransition;
      }
    }

    /** A LevelTransition frame: Enter goes on, F stays to farm. */
    method TransitionUpdate(input: Input)
      requires phase == LevelTransition
      modifies this`level, this`phase, this`isFarming
      ensures Prog() == TransitionStep(old(Prog()), input.enter, input.keyF)
    {
      if input.enter {
        if level % LevelsPerSet == 0 {
          phase := Shop;
        } else {
          level := level + 1;
          phase := Playing;
        }
        isFarming := false;
      }
      if input.keyF {
        isFarming := true;
        phase := Playing;
      }
    }

    /** A Shop frame: Enter leaves for the next level, Space buys if the
        wallet allows. */
    method ShopUpdate(input: Input)
      requires phase == Shop
      modifies this`level, this`phase, this`spentPoints
      ensures Prog() == ShopStep(old(Prog()), input.enter, input.space)
    {
      if input.enter {
        level := level + 1;
        phase := Playing;
      }
      var wallet := LeavesWallet();
      if input.space && wallet >= ShopPrice {
        spentPoints := spentPoints + ShopPrice;
      }
    }

    /** The mouse logic of a Playing frame: a click on the descend button while
        farming ends the level and skips the grid; any other click goes to
        the grid. */
    method PlayingClick(input: Input)
      requires Valid() && phase == Playing
      modifies this`board, this`drawn, this`totalPoints, this`selected, this`phase, grid
      ensures Tied() && Full(board) && SelectionOk(selected)
      ensures var f := PlayingFrame(old(board), old(selected), rng, old(drawn), budget, isFarming, input);
        board == f.board && drawn == f.drawn && selected == f.selected &&
        totalPoints == old(totalPoints) + f.gained
      ensures phase == if isFarming && Descend(input) then LevelTransition else Playing
    {
      if input.click.Some? {
        var click := input.click.value;
        var clickedButton := false;
        if isFarming {
          if click.onDescend {
            phase := LevelTransition;
            clickedButton := true;
          }
        }
        if !clickedButton {
          ClickGrid(click.cell);
        }
      }
    }

    /** A swap of two neighbours followed by the cascade; the selection is
        cleared. */
    method SwapAndCascade(a: Cell, c: Cell)
      requires Tied() && Full(board) && InGrid(a) && InGrid(c)
      modifies this`board, this`drawn, this`totalPoints, this`selected, grid
      ensures Tied() && Full(board)
      ensures var f := Cascaded(Swapped(old(board), a, c), rng, old(drawn), budget);
        board == f.board && drawn == f.drawn && selected == f.selected &&
        totalPoints == old(totalPoints) + f.gained
    {
      SwapKeepsFull(board, a, c);
      SwapTiles(a, c);
      var _ := Cascade();
      selected := None;
    }

    /** The grid logic of a click on cell g: select, move the selection, or
        swap with the selected neighbour and cascade. */
    method ClickGrid(g: Cell)
      requires Tied() && Full(board) && SelectionOk(selected)
      modifies this`board, this`drawn, this`totalPoints, this`selected, grid
      ensures Tied() && Full(board) && SelectionOk(selected)
      ensures var f := GridClick(old(board), old(selected), rng, old(drawn), budget, g);
        board == f.board && drawn == f.drawn && selected == f.selected &&
        totalPoints == old(totalPoints) + f.gained
    {
      if 0 <= g.x < W && 0 <= g.y < H {
        match selected
        case None =>
          selected := Some(g);
        case Some(s) =>
          var dx := Abs(g.x - s.x);
          var dy := Abs(g.y - s.y);
          if (dx == 1 && dy == 0) || (dx == 0 && dy == 1) {
            SwapAndCascade(s, g);
          } else {
            selected := Some(g);
          }
      } else {
        selected := None;
      }
    }
  }

  /** The grid new fills: a fresh array, every cell given a random tile,
      column by column and top to bottom, so cell (x, y) takes draw x * H + y. */
  method DealGrid(rng: nat -> int) returns (g: array2<Tile>)
    ensures fresh(g) && g.Length0 == W && g.Length1 == H
    ensures forall x, y :: 0 <= x < W && 0 <= y < H ==> g[x, y] == Dealt(rng)[x][y]
  {
    g := new Tile[W, H]((x, y) => Tile(Empty, Rest));
    var n := 0;
    for x := 0 to W
      invariant n == x * H
      invariant forall i, j :: 0 <= i < x && 0 <= j < H ==> g[i, j] == NewRandom(rng(i * H + j))
    {
      for y := 0 to H
        invariant n == x * H + y
        invariant forall i, j :: 0 <= i < x && 0 <= j < H ==> g[i, j] == NewRandom(rng(i * H + j))
        invariant forall j :: 0 <= j < y ==> g[x, j] == NewRandom(rng(x * H + j))
      {
        g[x, y] := NewRandom(rng(n));
        n := n + 1;
      }
    }
  }

  /** The sorted, duplicate-free list of pushed cells is the matched set: it
      lists each matched cell once and nothing else. */
  lemma MarkedList(b: Grid, found: seq<Cell>, toRemove: seq<Cell>)
    requires WellFormed(b)
    requires forall c :: c in found <==> c in MatchedCells(b)
    requires toRemove == SortDedup(found)
    ensures forall c :: c in toRemove <==> InGrid(c) && Marked(b, c.x, c.y)
    ensures |toRemove| == |MatchedCells(b)|
    ensures |toRemove| == 0 <==> Stable(b)
  {
    SortDedupSorted(found);
    SortedCardinality(toRemove);
    assert (set c | c in toRemove) == MatchedCells(b);
    NoMatchIffStable(b);
  }

  /** The board with the kind of every listed cell set to Empty. */
  function Emptied(b: Grid, cells: seq<Cell>): (r: Grid)
    requires WellFormed(b)
    ensures WellFormed(r)
    ensures forall x, y :: 0 <= x < W && 0 <= y < H ==>
      r[x][y] == if Cell(x, y) in cells then b[x][y].(kind := Empty) else b[x][y]
  {
    seq(W, x requires 0 <= x < W =>
      seq(H, y requires 0 <= y < H =>
        if Cell(x, y) in cells then b[x][y].(kind := Empty) else b[x][y]))
  }

  /** Settling the next column, with the draws where the previous columns
      stopped, takes the board one column further through gravity. */
  lemma GravitatingNext(b: Grid, rng: nat -> int, pos: nat, x: int, before: Grid, d: nat, after: Grid)
    requires WellFormed(b) && 0 <= x < W
    requires before == Gravitating(b, rng, pos, x) && d == pos + EmptiesIn(b[..x])
    requires after == before[x := Settled(before[x], rng, d)]
    ensures after == Gravitating(b, rng, pos, x + 1)
    ensures d + EmptyCount(before[x]) == pos + EmptiesIn(b[..x + 1])
  {
    GravitatingStep(b, rng, pos, x);
  }

  /** Updating a column twice leaves only the second update. */
  lemma UpdateTwice(b: Grid, x: int, c: seq<Tile>, c': seq<Tile>)
    requires 0 <= x < |b|
    ensures b[x := c][x := c'] == b[x := c']
  {
  }

  /** Emptying exactly the marked cells is clearing the board. */
  lemma EmptiedIsCleared(b: Grid, cells: seq<Cell>)
    requires WellFormed(b)
    requires forall c :: c in cells <==> InGrid(c) && Marked(b, c.x, c.y)
    ensures Emptied(b, cells) == Cleared(b)
  {
    var r, s := Emptied(b, cells), Cleared(b);
    ClearedAt(b);
    forall x | 0 <= x < W ensures r[x] == s[x] {
      forall y | 0 <= y < H ensures r[x][y] == s[x][y] {
        assert Cell(x, y) in cells <==> Marked(b, x, y);
      }
    }
  }
}
