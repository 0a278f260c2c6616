/** The pointer input of the Playing phase: which grid cell a click lands on,
    and what a click does to the current selection. */
module Controls {
  import opened Board

  datatype Option<T> = None | Some(value: T)

  /** A left click of one frame: the grid cell under the pointer (any
      integers, possibly outside the board) and whether the pointer was also
      inside the descend button's rectangle. */
  datatype Click = Click(cell: Cell, onDescend: bool)

  /** The input events of one frame. */
  datatype Input = Input(click: Option<Click>, enter: bool, keyF: bool, space: bool)

  function Abs(n: int): (r: nat)
    ensures r == n || r == -n
  {
    if n < 0 then -n else n
  }

  /** Two cells are neighbours: one step apart along a row or a column. */
  predicate Adjacent(a: Cell, b: Cell)
    ensures Adjacent(a, b) <==> Abs(b.x - a.x) + Abs(b.y - a.y) == 1
  {
    var dx := Abs(b.x - a.x);
    var dy := Abs(b.y - a.y);
    (dx == 1 && dy == 0) || (dx == 0 && dy == 1)
  }

  /** Since neighbours are the cells at Manhattan distance one, a cell is
      never its own neighbour, diagonal cells are not neighbours, and the
      relation is symmetric. */
  lemma AdjacentIsDistanceOne(a: Cell, b: Cell)
    ensures Adjacent(a, b) ==> a.x == b.x || a.y == b.y
    ensures Adjacent(a, b) ==> a != b
    ensures Adjacent(a, b) == Adjacent(b, a)
  {
  }

  /** What a click does: either it leaves a new selection (possibly none), or
      it swaps the selected tile with the clicked one. */
  datatype ClickEffect = Select(selection: Option<Cell>) | SwapWith(from: Cell, to: Cell)

  /** A click on grid cell g, with the current selection. */
  function OnClick(selected: Option<Cell>, g: Cell): (e: ClickEffect)
    // a swap happens exactly for an in-grid click next to the selected cell
    ensures e.SwapWith? <==> InGrid(g) && selected.Some? && Adjacent(selected.value, g)
    ensures e.SwapWith? ==> e == SwapWith(selected.value, g)
    // a click outside the board clears the selection
    ensures !InGrid(g) ==> e == Select(None)
    // with nothing selected, an in-grid click selects that cell
    ensures InGrid(g) && selected.None? ==> e == Select(Some(g))
    // an in-grid click not next to the selection moves the selection there
    ensures InGrid(g) && selected.Some? && !Adjacent(selected.value, g) ==> e == Select(Some(g))
  {
    if 0 <= g.x < W && 0 <= g.y < H then
      match selected
      case None => Select(Some(g))
      case Some(s) =>
        if Adjacent(s, g) then SwapWith(s, g) else Select(Some(g))
    else Select(None)
  }

  /** A selection is always a cell of the board. */
  predicate SelectionOk(selected: Option<Cell>)
  {
    selected.Some? ==> InGrid(selected.value)
  }

  /** A click keeps the selection on the board, and a swap exchanges two
      different cells of the board. */
  lemma OnClickKeepsSelection(selected: Option<Cell>, g: Cell)
    requires SelectionOk(selected)
    ensures var e := OnClick(selected, g);
      (e.Select? ==> SelectionOk(e.selection)) &&
      (e.SwapWith? ==> InGrid(e.from) && InGrid(e.to) && e.from != e.to)
  {
    var e := OnClick(selected, g);
    if e.SwapWith? {
      AdjacentIsDistanceOne(e.from, e.to);
    }
  }

  /** Clicking the selected cell again re-selects it rather than swapping. */
  lemma ClickSameCellKeepsIt(s: Cell)
    requires InGrid(s)
    ensures OnClick(Some(s), s) == Select(Some(s))
  {
  }
}
