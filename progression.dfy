/** The progression state machine: the phases Playing, LevelTransition and
    Shop, the per-level point threshold, the farming flag and the shop's
    spending, as functions of the progression fields and one frame's input. */
module Progression {
  import opened Tiles

  datatype Phase = Playing | LevelTransition | Shop

  /** Points needed per level: level n is cleared at n * PointsPerLevel. */
  const PointsPerLevel: int := 2000

  /** What one purchase in the shop costs. */
  const ShopPrice: int := 500

  /** The fields of the game state that the phase machine reads and writes. */
  datatype Progress = Progress(totalPoints: int, spentPoints: int, level: int, phase: Phase, isFarming: bool)

  /** The progression a new game starts from. */
  const Start: Progress := Progress(0, 0, 1, Playing, false)

  /** The leaves the player can spend: points earned minus points spent. It
      is never negative exactly when no more was spent than earned. */
  function Wallet(p: Progress): (w: int)
    ensures w >= 0 <==> p.spentPoints <= p.totalPoints
    ensures Inv(p) ==> w >= 0
  {
    p.totalPoints - p.spentPoints
  }

  /** The points at which a level is over: a whole multiple of
      PointsPerLevel, at least PointsPerLevel from level 1 on, and higher for
      every later level (ThresholdGrows). */
  function Threshold(level: int): (t: int)
    ensures t % PointsPerLevel == 0
    ensures level >= 1 ==> t >= PointsPerLevel
  {
    level * PointsPerLevel
  }

  /** Every later level needs more points, PointsPerLevel more per level. */
  lemma ThresholdGrows(lo: int, hi: int)
    requires lo <= hi
    ensures Threshold(hi) - Threshold(lo) == (hi - lo) * PointsPerLevel
    ensures lo < hi ==> Threshold(lo) < Threshold(hi)
  {
  }

  /** The end of every Playing frame: once the level's threshold is reached,
      and unless the player chose to farm, the level is over. */
  function CheckThreshold(p: Progress): (q: Progress)
    ensures q.phase == LevelTransition <==>
      p.phase == LevelTransition || (p.totalPoints >= Threshold(p.level) && !p.isFarming)
    ensures q.phase != LevelTransition ==> q.phase == p.phase
    ensures q == p.(phase := q.phase)
  {
    if p.totalPoints >= Threshold(p.level) && !p.isFarming then p.(phase := LevelTransition) else p
  }

  /** A Playing frame. A click on the descend button while farming ends the
      level at once and skips the grid; otherwise the grid logic adds the
      points `gained` by the cascade it ran (none without a swap). */
  function PlayingStep(p: Progress, descend: bool, gained: nat): (q: Progress)
    requires p.phase == Playing
    ensures descend && p.isFarming ==> q == p.(phase := LevelTransition)
    ensures !(descend && p.isFarming) ==>
      q.totalPoints == p.totalPoints + gained && q.spentPoints == p.spentPoints &&
      q.level == p.level && q.isFarming == p.isFarming &&
      (q.phase == LevelTransition <==> q.totalPoints >= Threshold(p.level) && !p.isFarming) &&
      (q.phase != LevelTransition ==> q.phase == Playing)
  {
    var clickedButton := descend && p.isFarming;
    var p1 := if clickedButton then p.(phase := LevelTransition)
              else p.(totalPoints := p.totalPoints + gained);
    CheckThreshold(p1)
  }

  /** A LevelTransition frame. Enter goes on: to the Shop, keeping the level,
      after every LevelsPerSet-th level, otherwise straight to the next level;
      either way farming ends. F, checked after Enter in the same frame,
      turns farming on and returns to Playing; when both keys come in one
      frame the level-up of Enter stands, so the player farms the next level
      (or, after every LevelsPerSet-th level, skips the Shop). */
  function TransitionStep(p: Progress, enter: bool, keyF: bool): (q: Progress)
    requires p.phase == LevelTransition
    ensures q.totalPoints == p.totalPoints && q.spentPoints == p.spentPoints
    ensures keyF ==> q.phase == Playing && q.isFarming
    ensures !keyF && enter && p.level % LevelsPerSet == 0 ==>
      q.phase == Shop && q.level == p.level && !q.isFarming
    ensures !keyF && enter && p.level % LevelsPerSet != 0 ==>
      q.phase == Playing && q.level == p.level + 1 && !q.isFarming
    ensures !keyF && !enter ==> q == p
    ensures q.level == if enter && p.level % LevelsPerSet != 0 then p.level + 1 else p.level
  {
    var p1 :=
      if enter then
        (if p.level % LevelsPerSet == 0 then p.(phase := Shop)
         else p.(level := p.level + 1, phase := Playing)).(isFarming := false)
      else p;
    if keyF then p1.(isFarming := true, phase := Playing) else p1
  }

  /** A Shop frame. Enter leaves for the next level; Space, checked after
      Enter in the same frame, buys for ShopPrice if the wallet holds as much. */
  function ShopStep(p: Progress, enter: bool, space: bool): (q: Progress)
    requires p.phase == Shop
    ensures q.totalPoints == p.totalPoints && q.isFarming == p.isFarming
    ensures q.level == (if enter then p.level + 1 else p.level)
    ensures q.phase == (if enter then Playing else Shop)
    ensures q.spentPoints == p.spentPoints + (if space && Wallet(p) >= ShopPrice then ShopPrice else 0)
  {
    var p1 := if enter then p.(level := p.level + 1, phase := Playing) else p;
    if space && Wallet(p1) >= ShopPrice then p1.(spentPoints := p1.spentPoints + ShopPrice) else p1
  }

  /** What the progression fields keep true from the start of a game on:
      the wallet is never negative and spending goes in whole purchases;
      the level is at least 1; the Shop is only open after every
      LevelsPerSet-th level, and not while farming; and a level is only
      over once its threshold is reached or while farming. */
  ghost predicate Inv(p: Progress)
  {
    0 <= p.spentPoints <= p.totalPoints &&
    p.spentPoints % ShopPrice == 0 &&
    p.level >= 1 &&
    (p.phase == Shop ==> p.level % LevelsPerSet == 0 && !p.isFarming) &&
    (p.phase == LevelTransition ==> p.isFarming || p.totalPoints >= Threshold(p.level))
  }

  lemma StartInv()
    ensures Inv(Start)
  {
  }

  /** The progression after one frame of input, in whichever phase the frame
      starts; `gained` is what the grid's cascade scored in that frame. */
  function Step(p: Progress, descend: bool, enter: bool, keyF: bool, space: bool, gained: nat): (q: Progress)
    // points never drop and the level never goes down
    ensures q.totalPoints >= p.totalPoints && q.level >= p.level
    // the phases move only along Playing -> LevelTransition -> Shop or
    // Playing, and Shop -> Playing
    ensures q.phase == Shop ==> p.phase != Playing
    ensures q.phase == LevelTransition ==> p.phase != Shop
    // only the Shop spends
    ensures q.spentPoints != p.spentPoints ==> p.phase == Shop
  {
    match p.phase
    case Playing => PlayingStep(p, descend, gained)
    case LevelTransition => TransitionStep(p, enter, keyF)
    case Shop => ShopStep(p, enter, space)
  }

  /** Every frame keeps the invariant. Points and spending never decrease, and
      the level goes up by at most one per frame. */
  lemma StepKeepsInv(p: Progress, descend: bool, enter: bool, keyF: bool, space: bool, gained: nat)
    requires Inv(p)
    ensures var q := Step(p, descend, enter, keyF, space, gained);
      Inv(q) &&
      q.totalPoints >= p.totalPoints && q.spentPoints >= p.spentPoints &&
      p.level <= q.level <= p.level + 1
  {
    var q := Step(p, descend, enter, keyF, space, gained);
    match p.phase
    case Playing =>
    case LevelTransition =>
    case Shop =>
      if space && Wallet(p) >= ShopPrice {
        assert q.spentPoints == p.spentPoints + ShopPrice;
        assert q.spentPoints % ShopPrice == 0;
      }
  }

  /** The level goes up exactly when Enter leaves the Shop, or leaves a
      LevelTransition that does not lead to the Shop. */
  lemma LevelUpOnlyByEnter(p: Progress, descend: bool, enter: bool, keyF: bool, space: bool, gained: nat)
    ensures var q := Step(p, descend, enter, keyF, space, gained);
      q.level != p.level <==>
        enter && (p.phase == Shop || (p.phase == LevelTransition && p.level % LevelsPerSet != 0))
  {
  }

  /** One frame's worth of the input the phase machine sees. */
  datatype Tick = Tick(descend: bool, enter: bool, keyF: bool, space: bool, gained: nat)

  /** The progression after a sequence of frames. */
  function Steps(p: Progress, ticks: seq<Tick>): Progress
    decreases |ticks|
  {
    if ticks == [] then p
    else
      var t := ticks[0];
      Steps(Step(p, t.descend, t.enter, t.keyF, t.space, t.gained), ticks[1..])
  }

  /** Over any run of frames the invariant holds, so in particular the wallet
      never goes negative, and points and spending only grow. */
  lemma {:induction false} StepsKeepInv(p: Progress, ticks: seq<Tick>)
    requires Inv(p)
    ensures var q := Steps(p, ticks);
      Inv(q) && Wallet(q) >= 0 &&
      q.totalPoints >= p.totalPoints && q.spentPoints >= p.spentPoints &&
      p.level <= q.level <= p.level + |ticks|
    decreases |ticks|
  {
    if ticks != [] {
      var t := ticks[0];
      StepKeepsInv(p, t.descend, t.enter, t.keyF, t.space, t.gained);
      StepsKeepInv(Step(p, t.descend, t.enter, t.keyF, t.space, t.gained), ticks[1..]);
    }
  }

  /** Enter and F in the same LevelTransition frame: Enter's level-up
      stands, and F then sends the player back to Playing to farm the new
      level, whose threshold has not been reached; at every LevelsPerSet-th
      level the pair skips the Shop instead. */
  lemma EnterAndFFarmsAhead(p: Progress)
    requires p.phase == LevelTransition
    ensures var q := TransitionStep(p, true, true);
      q.phase == Playing && q.isFarming &&
      q.level == (if p.level % LevelsPerSet == 0 then p.level else p.level + 1)
  {
  }

  /** Farming is a choice made in LevelTransition: a Playing frame never
      starts farming, and the Shop never changes it. */
  lemma FarmingOnlyByF(p: Progress, descend: bool, enter: bool, keyF: bool, space: bool, gained: nat)
    requires !p.isFarming
    ensures Step(p, descend, enter, keyF, space, gained).isFarming ==> p.phase == LevelTransition && keyF
  {
  }
}
