/** What one frame of the game does to the grid and the selection, as
    functions of the state and the frame's input: the initial deal, the
    click logic of the Playing phase and the cascade a swap sets off. */
module Frames {
  import opened Tiles
  import opened Board
  import opened Cascade
  import opened Controls

  /** The board a new game deals before any match is cleared: column by
      column, top to bottom, one draw per cell. */
  function Dealt(rng: nat -> int): (b: Grid)
    ensures WellFormed(b)
    ensures forall x, y :: 0 <= x < W && 0 <= y < H ==> b[x][y] == NewRandom(rng(x * H + y))
    ensures Full(b)
  {
    seq(W, x requires 0 <= x < W => seq(H, y requires 0 <= y < H => NewRandom(rng(x * H + y))))
  }

  /** The grid side of a frame: the board, how many draws have been made,
      the selection, and the points the frame's cascade scored. */
  datatype Frame = Frame(board: Grid, drawn: nat, selected: Option<Cell>, gained: nat)

  /** A click on grid cell g in the Playing phase. A click next to the
      selected cell swaps the two tiles, runs the cascade from the swapped
      board and clears the selection; any other click only moves or clears
      the selection. */
  ghost function GridClick(b: Grid, selected: Option<Cell>, rng: nat -> int, pos: nat, budget: nat, g: Cell): (f: Frame)
    requires WellFormed(b) && SelectionOk(selected)
    ensures WellFormed(f.board) && SelectionOk(f.selected)
    ensures Full(b) ==> Full(f.board)
    ensures f.drawn >= pos
    ensures OnClick(selected, g).Select? ==>
      f == Frame(b, pos, OnClick(selected, g).selection, 0)
    ensures OnClick(selected, g).SwapWith? ==>
      f.selected.None? &&
      var r := Run(Swapped(b, selected.value, g), rng, pos, budget);
      f.board == r.board && f.drawn == r.drawn && f.gained == r.points
  {
    OnClickKeepsSelection(selected, g);
    match OnClick(selected, g)
    case Select(s) => Frame(b, pos, s, 0)
    case SwapWith(a, c) =>
      if Full(b) then SwapKeepsFull(b, a, c); Cascaded(Swapped(b, a, c), rng, pos, budget)
      else Cascaded(Swapped(b, a, c), rng, pos, budget)
  }

  /** The cascade after a swap, as a frame: the selection is cleared. */
  ghost function Cascaded(b: Grid, rng: nat -> int, pos: nat, budget: nat): (f: Frame)
    requires WellFormed(b)
    ensures WellFormed(f.board) && f.selected.None? && f.drawn >= pos
    ensures Full(b) ==> Full(f.board)
    ensures var r := Run(b, rng, pos, budget);
      f.board == r.board && f.drawn == r.drawn && f.gained == r.points
  {
    var r := Run(b, rng, pos, budget);
    Frame(r.board, r.drawn, None, r.points)
  }

  /** Whether a frame's click hit the descend button. */
  function Descend(input: Input): bool
  {
    input.click.Some? && input.click.value.onDescend
  }

  /** The grid side of a Playing frame: without a click nothing happens; a
      click on the descend button while farming skips the grid logic;
      every other click goes to the grid. */
  ghost function PlayingFrame(b: Grid, selected: Option<Cell>, rng: nat -> int, pos: nat, budget: nat,
                              farming: bool, input: Input): (f: Frame)
    requires WellFormed(b) && SelectionOk(selected)
    ensures WellFormed(f.board) && SelectionOk(f.selected)
    ensures Full(b) ==> Full(f.board)
    ensures input.click.None? || (farming && Descend(input)) ==> f == Frame(b, pos, selected, 0)
    ensures input.click.Some? && !(farming && Descend(input)) ==>
      f == GridClick(b, selected, rng, pos, budget, input.click.value.cell)
  {
    if input.click.None? || (farming && Descend(input)) then Frame(b, pos, selected, 0)
    else GridClick(b, selected, rng, pos, budget, input.click.value.cell)
  }

  /** A swap that makes no match is not taken back: the board keeps the two
      tiles exchanged, and nothing is scored. */
  lemma SwapWithoutMatchStays(b: Grid, selected: Option<Cell>, rng: nat -> int, pos: nat, budget: nat, g: Cell)
    requires WellFormed(b) && SelectionOk(selected)
    requires OnClick(selected, g).SwapWith?
    requires Stable(Swapped(b, selected.value, g))
    ensures GridClick(b, selected, rng, pos, budget, g) == Frame(Swapped(b, selected.value, g), pos, None, 0)
  {
  }

  /** A swap that makes a match scores at least 30 points: 10 for each of
      the three cells of one window. */
  lemma SwapWithMatchScores(b: Grid, selected: Option<Cell>, rng: nat -> int, pos: nat, budget: nat, g: Cell)
    requires WellFormed(b) && SelectionOk(selected)
    requires OnClick(selected, g).SwapWith?
    requires !Stable(Swapped(b, selected.value, g))
    ensures var f := GridClick(b, selected, rng, pos, budget, g);
      f.gained >= 30
  {
    RunScoresThree(Swapped(b, selected.value, g), rng, pos, budget);
  }
}
