/** The cascade as a function of the board: remove the matches, let the
    columns fall and refill, and repeat until nothing matches. With random
    refills the loop has no termination guarantee, so the function takes a
    fuel bound: `fuel` further passes after the first. */
module Cascade {
  import opened Tiles
  import opened Board
  import opened Gravity

  /** Where a cascade ends: the board, the position reached in the stream of
      draws, the points scored, the tiles removed (deduplicated within each
      pass) and whether it stopped because the board had become stable. */
  datatype Outcome = Outcome(board: Grid, drawn: nat, points: nat, removed: nat, stable: bool)

  /** One pass on an unstable board: the matched cells are cleared, then
      every column falls and is refilled. */
  datatype Pass = Pass(board: Grid, drawn: nat, removed: nat)

  ghost function OnePass(b: Grid, rng: nat -> int, pos: nat): (p: Pass)
    requires WellFormed(b)
    ensures WellFormed(p.board) && Full(p.board)
    ensures p.drawn >= pos
    ensures !Stable(b) ==> p.removed > 0
  {
    NoMatchIffStable(b);
    var cleared := Cleared(b);
    GravityBoardColumns(cleared, rng, pos);
    Pass(GravityBoard(cleared, rng, pos), pos + EmptiesIn(cleared), |MatchedCells(b)|)
  }

  ghost function Run(b: Grid, rng: nat -> int, pos: nat, fuel: nat): (r: Outcome)
    requires WellFormed(b)
    ensures WellFormed(r.board)
    ensures r.stable ==> Stable(r.board)
    ensures Full(b) ==> Full(r.board)
    ensures r.points == 10 * r.removed
    ensures r.drawn >= pos
    ensures Stable(b) ==> r == Outcome(b, pos, 0, 0, true)
    ensures !Stable(b) ==> r.removed > 0 && Full(r.board)
    decreases fuel
  {
    if Stable(b) then Outcome(b, pos, 0, 0, true)
    else
      var p := OnePass(b, rng, pos);
      if fuel == 0 then Outcome(p.board, p.drawn, 10 * p.removed, p.removed, false)
      else
        Then(p, Run(p.board, rng, p.drawn, fuel - 1))
  }

  /** A pass followed by the rest of a cascade. */
  function Then(p: Pass, r: Outcome): Outcome
  {
    Outcome(r.board, r.drawn, 10 * p.removed + r.points, p.removed + r.removed, r.stable)
  }

  /** One unfolding of the cascade on an unstable board with fuel left:
      the first pass, then the cascade of the board it left with one pass
      less. */
  lemma RunStep(b: Grid, rng: nat -> int, pos: nat, rest: nat)
    requires WellFormed(b) && !Stable(b)
    ensures var p := OnePass(b, rng, pos);
      Run(b, rng, pos, rest + 1) == Then(p, Run(p.board, rng, p.drawn, rest))
  {
  }

  /** A cascade that was meant to end as `r0` and has scored `gained` so
      far, with `r` still to go. */
  predicate Continues(r0: Outcome, gained: int, r: Outcome)
  {
    r0.board == r.board && r0.drawn == r.drawn && r0.points == gained + r.points && r0.stable == r.stable
  }

  /** After one pass on an unstable board with passes left, the rest of the
      cascade is the cascade of the board the pass left, with one pass less;
      the pass scored 10 points per matched cell. */
  lemma ContinuesAfterPass(r0: Outcome, gained: int, b: Grid, rng: nat -> int, d: nat, fuel: nat, rest: nat)
    requires WellFormed(b) && !Stable(b) && fuel == rest + 1
    requires Continues(r0, gained, Run(b, rng, d, fuel))
    ensures var p := OnePass(b, rng, d);
      Continues(r0, gained + 10 * p.removed, Run(p.board, rng, p.drawn, rest))
  {
    RunStep(b, rng, d, rest);
  }

  /** A cascade whose single remaining pass was just made ends there. */
  lemma EndsAfterPass(r0: Outcome, gained: int, b: Grid, rng: nat -> int, d: nat)
    requires WellFormed(b) && !Stable(b)
    requires Continues(r0, gained, Run(b, rng, d, 0))
    ensures var p := OnePass(b, rng, d);
      r0.board == p.board && r0.drawn == p.drawn && r0.points == gained + 10 * p.removed && !r0.stable
  {
  }

  /** A cascade that reaches a stable board ends there. */
  lemma EndsWhenStable(r0: Outcome, gained: int, b: Grid, rng: nat -> int, d: nat, fuel: nat)
    requires WellFormed(b) && Stable(b)
    requires Continues(r0, gained, Run(b, rng, d, fuel))
    ensures r0.board == b && r0.drawn == d && r0.points == gained && r0.stable
  {
  }

  /** What one pass consists of. */
  lemma OnePassIs(b: Grid, rng: nat -> int, d: nat)
    requires WellFormed(b)
    ensures OnePass(b, rng, d) ==
      Pass(GravityBoard(Cleared(b), rng, d), d + EmptiesIn(Cleared(b)), |MatchedCells(b)|)
  {
  }

  /** A cascade from an unstable board removes at least the three cells of
      one window, so it scores at least 30 points. */
  lemma RunScoresThree(b: Grid, rng: nat -> int, pos: nat, fuel: nat)
    requires WellFormed(b) && !Stable(b)
    ensures Run(b, rng, pos, fuel).removed >= 3
    ensures Run(b, rng, pos, fuel).points >= 30
  {
    UnstableMatchesThree(b);
    OnePassIs(b, rng, pos);
    if fuel > 0 {
      RunStep(b, rng, pos, fuel - 1);
    }
  }

  /** Running the cascade again on the board a finished cascade left scores
      nothing and changes nothing. */
  lemma RunIdempotent(b: Grid, rng: nat -> int, pos: nat, fuel: nat, fuel': nat)
    requires WellFormed(b) && Run(b, rng, pos, fuel).stable
    ensures var r := Run(b, rng, pos, fuel);
      Run(r.board, rng, r.drawn, fuel') == Outcome(r.board, r.drawn, 0, 0, true)
  {
  }
}
