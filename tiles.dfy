/** Tile values: the closed set of kinds, the (integer abstraction of the)
    vertical fall offset, the random-tile constructor and the colour map. */
module Tiles {

  /** The tile kinds; Empty is the sentinel a removed cell holds until refill. */
  datatype Kind = Sun | Moon | Skull | Leaf | Exotic | Empty

  /** The fall offset, a float in pixels in the game, kept here as what it
      encodes: resting (0), fell `rows` rows (minus rows tile heights), or
      freshly spawned off-screen (minus four tile heights). */
  datatype Offset = Rest | Fell(rows: nat) | Spawned

  /** A tile is a plain value: copying it copies both its kind and its offset. */
  datatype Tile = Tile(kind: Kind, offset: Offset)

  /** The kind chosen for a draw of the random number generator (which draws
      from 0 to 4): the draws 0..3 name a kind each, every other draw is Exotic. */
  function KindOfDraw(draw: int): (k: Kind)
    ensures k != Empty
    ensures k == Exotic <==> !(0 <= draw < 4)
  {
    match draw
    case 0 => Sun
    case 1 => Moon
    case 2 => Skull
    case 3 => Leaf
    case _ => Exotic
  }

  /** A fresh random tile for a given draw: never Empty, always at rest. */
  function NewRandom(draw: int): (t: Tile)
    ensures t.kind != Empty && t.offset == Rest
    ensures t.kind == KindOfDraw(draw)
  {
    Tile(KindOfDraw(draw), Rest)
  }

  /** Every non-Empty kind is produced by some draw the generator can make. */
  lemma EveryKindDrawable(k: Kind)
    requires k != Empty
    ensures exists d :: 0 <= d < 5 && NewRandom(d).kind == k
  {
    match k
    case Sun => assert NewRandom(0).kind == Sun;
    case Moon => assert NewRandom(1).kind == Moon;
    case Skull => assert NewRandom(2).kind == Skull;
    case Leaf => assert NewRandom(3).kind == Leaf;
    case Exotic => assert NewRandom(4).kind == Exotic;
  }

  /** The draws 0..4 produce five different kinds: the map is a bijection
      from the generator's range onto the non-Empty kinds. */
  lemma DrawsAreDistinct(d1: int, d2: int)
    requires 0 <= d1 < 5 && 0 <= d2 < 5 && d1 != d2
    ensures KindOfDraw(d1) != KindOfDraw(d2)
  {
  }

  /** The colours the renderer uses, as a small enumeration. */
  datatype Color = Gold | SkyBlue | Beige | Lime | Blank | Pink | Purple | Red

  /** Levels per biome (one shop visit per set). */
  const LevelsPerSet: int := 3

  /** Integer division rounding toward zero, as the game's 32-bit `/` does
      (Dafny's own `/` is Euclidean and differs for a negative dividend). */
  function TruncDiv(a: int, b: int): (q: int)
    requires b > 0
    ensures a >= 0 ==> 0 <= a - q * b < b
    ensures a < 0 ==> -b < a - q * b <= 0
  {
    if a >= 0 then a / b else -((-a) / b)
  }

  /** The biome a level belongs to: levels 1..3 are set 0, 4..6 set 1, and so
      on. Division truncates toward zero, so the levels just below 1 also
      fall in set 0, and only levels from 1 - LevelsPerSet down give a
      negative index. */
  function SetIndex(level: int): (s: int)
    ensures level >= 1 ==> s == (level - 1) / LevelsPerSet && s >= 0
    ensures 1 - LevelsPerSet < level <= LevelsPerSet <==> s == 0
    ensures s < 0 <==> level <= 1 - LevelsPerSet
  {
    TruncDiv(level - 1, LevelsPerSet)
  }

  /** The colour of a tile at a level; only Exotic depends on the level. */
  function ColorOf(t: Tile, level: int): (c: Color)
    ensures c == Blank <==> t.kind == Empty
    ensures t.kind == Exotic <==> c in {Pink, Purple, Red}
  {
    match t.kind
    case Sun => Gold
    case Moon => SkyBlue
    case Skull => Beige
    case Leaf => Lime
    case Empty => Blank
    case Exotic =>
      match SetIndex(level)
      case 0 => Pink
      case 1 => Purple
      case _ => Red
  }

  /** Sun, Moon, Skull, Leaf and Empty have one colour each, whatever the level. */
  lemma ColorIndependentOfLevel(t: Tile, level1: int, level2: int)
    requires t.kind != Exotic
    ensures ColorOf(t, level1) == ColorOf(t, level2)
  {
  }

  /** For the levels the game reaches (it starts at 1 and only counts up),
      Exotic is pink in levels 1..3, purple in 4..6 and red from 7 on. */
  lemma ExoticColorBySet(offset: Offset, level: int)
    requires level >= 1
    ensures ColorOf(Tile(Exotic, offset), level) ==
      if level <= 3 then Pink else if level <= 6 then Purple else Red
  {
    var s := SetIndex(level);
    assert 0 <= (level - 1) - s * 3 < 3;
    if level <= 3 {
      assert s == 0;
    } else if level <= 6 {
      assert s == 1;
    } else {
      assert s >= 2;
    }
  }

  /** With truncating division level 0 still falls in set 0 (so Exotic is
      pink), where a floor division would have given set -1 and red. */
  lemma LevelZeroIsFirstSet()
    ensures SetIndex(0) == 0 && (0 - 1) / LevelsPerSet == -1
    ensures ColorOf(Tile(Exotic, Rest), 0) == Pink
  {
  }
}
