/**
  The biome palette and its colour lookup (`Palette::get`).

  A palette holds thirteen named colours. Away from the shoreline a colour is
  read from a fixed 4 x 6 grid of those colours (bottom row = lowest height
  band, left column = driest) by bilinear interpolation; next to water it is
  a smoothstep blend of two fixed colours keyed on the raw height.
 */
module Biomes {
  import opened Vectors
  import Smooth

  /** The thirteen named entries of a palette. */
  datatype Biome =
    | Snow | Tundra | Bare | Scorched
    | Taiga | Shrubland | TemperateDesert
    | TemperateRainforest | TemperateDeciduousForest | Grassland
    | TropicalRainforest | TropicalSeasonalForest | SubtropicalDesert

  datatype Palette = Palette(
    snow: Vec3, tundra: Vec3, bare: Vec3, scorched: Vec3,
    taiga: Vec3, shrubland: Vec3, temperateDesert: Vec3,
    temperateRainforest: Vec3, temperateDeciduousForest: Vec3, grassland: Vec3,
    tropicalRainforest: Vec3, tropicalSeasonalForest: Vec3, subtropicalDesert: Vec3)

  function ColourOf(p: Palette, b: Biome): Vec3
  {
    match b
    case Snow => p.snow
    case Tundra => p.tundra
    case Bare => p.bare
    case Scorched => p.scorched
    case Taiga => p.taiga
    case Shrubland => p.shrubland
    case TemperateDesert => p.temperateDesert
    case TemperateRainforest => p.temperateRainforest
    case TemperateDeciduousForest => p.temperateDeciduousForest
    case Grassland => p.grassland
    case TropicalRainforest => p.tropicalRainforest
    case TropicalSeasonalForest => p.tropicalSeasonalForest
    case SubtropicalDesert => p.subtropicalDesert
  }

  /** Largest row index (height band) and column index (wetness band). */
  const TopRow: nat := 3
  const TopColumn: nat := 5

  /**
    The biome grid, bottom row first, driest column first. Several cells
    deliberately share one named colour.
   */
  function BiomeAt(row: nat, column: nat): Biome
    requires row <= TopRow && column <= TopColumn
  {
    [
      [SubtropicalDesert, Grassland, TropicalSeasonalForest, TropicalSeasonalForest, TropicalRainforest, TropicalRainforest],
      [TemperateDesert, Grassland, Grassland, TemperateDeciduousForest, TemperateDeciduousForest, TemperateRainforest],
      [TemperateDesert, TemperateDesert, Shrubland, Shrubland, Taiga, Taiga],
      [Scorched, Bare, Tundra, Snow, Snow, Snow]
    ][row][column]
  }

  function Cell(p: Palette, row: nat, column: nat): Vec3
    requires row <= TopRow && column <= TopColumn
  {
    ColourOf(p, BiomeAt(row, column))
  }

  /** Every named colour of the palette is reachable from some grid cell. */
  lemma EveryBiomeInGrid(b: Biome)
    ensures exists row: nat, column: nat :: row <= TopRow && column <= TopColumn && BiomeAt(row, column) == b
  {
    var cell: (nat, nat) :=
      match b
      case SubtropicalDesert => (0, 0)
      case Grassland => (0, 1)
      case TropicalSeasonalForest => (0, 2)
      case TropicalRainforest => (0, 4)
      case TemperateDesert => (1, 0)
      case TemperateDeciduousForest => (1, 3)
      case TemperateRainforest => (1, 5)
      case Shrubland => (2, 2)
      case Taiga => (2, 4)
      case Scorched => (3, 0)
      case Bare => (3, 1)
      case Tundra => (3, 2)
      case Snow => (3, 3);
    assert BiomeAt(cell.0, cell.1) == b;
  }

  /** `f32::ceil` on a real. */
  function Ceil(x: real): (c: int)
    ensures x <= c as real < x + 1.0
  {
    -((-x).Floor)
  }

  /**
    `x as usize` for a float holding a whole number: Rust's cast saturates,
    so negative values become 0.
   */
  function SaturatingUsize(i: int): (n: nat)
    ensures i >= 0 ==> n == i
    ensures i < 0 ==> n == 0
  {
    if i < 0 then 0 else i
  }

  /** The pair of grid indices surrounding a coordinate. */
  datatype Span = Span(lower: nat, upper: nat) {
    predicate Within(top: nat) {
      lower <= top && upper <= top
    }
  }

  /**
    `(c.floor() as usize).min(top)` and `(c.ceil() as usize).min(top)`:
    both indices are in range whatever the coordinate, and they are the
    plain floor and ceiling while the coordinate lies on the grid.
   */
  function Band(c: real, top: nat): (s: Span)
    ensures s.lower <= s.upper <= top
    ensures s.upper <= s.lower + 1
    ensures 0.0 <= c <= top as real ==> s.lower == c.Floor && s.upper == Ceil(c)
    ensures top as real <= c ==> s.lower == top && s.upper == top
    ensures c <= 0.0 ==> s.lower == 0 && s.upper == 0
  {
    var lo := SaturatingUsize(c.Floor);
    var hi := SaturatingUsize(Ceil(c));
    Span(if lo < top then lo else top, if hi < top then hi else top)
  }

  /** `c - c.floor()`, the interpolation weight inside a grid cell. */
  function Frac(c: real): (f: real)
    ensures 0.0 <= f < 1.0
    ensures c == c.Floor as real ==> f == 0.0
  {
    c - c.Floor as real
  }

  /** `a * (1 - t) + b * t`. */
  function Lerp(a: Vec3, b: Vec3, t: real): Vec3
  {
    Add(Scale(a, 1.0 - t), Scale(b, t))
  }

  /**
    The grid branch once the indices and weights are known: interpolate
    along the wetness axis in the lower and upper rows, then between rows.
   */
  function Bilinear(p: Palette, wet: Span, high: Span, wetDist: real, heightDist: real): Vec3
    requires wet.Within(TopColumn) && high.Within(TopRow)
  {
    var top := Lerp(Cell(p, high.upper, wet.lower), Cell(p, high.upper, wet.upper), wetDist);
    var bottom := Lerp(Cell(p, high.lower, wet.lower), Cell(p, high.lower, wet.upper), wetDist);
    Lerp(bottom, top, heightDist)
  }

  /** The continuous grid coordinates of a wetness and a shaped height. */
  function WetCoord(wetness: real): real
  {
    wetness * 6.0
  }

  function HeightCoord(heightScale: real): real
  {
    heightScale * heightScale * 4.0
  }

  /** The blend used next to water, keyed on raw height. */
  function ShoreBlend(height: real, salmon: Vec3, darkGray: Vec3): (r: Vec3)
    ensures forall i | 0 <= i < 3 :: BetweenOn(r, darkGray, salmon, i)
  {
    var weight := Smooth.Smoothstep(height, 0.98, 1.01);
    LerpBetweenAll(darkGray, salmon, weight);
    Add(Scale(salmon, weight), Scale(darkGray, 1.0 - weight))
  }

  /** Channel `i` of `v` lies between channel `i` of `a` and of `b`. */
  ghost predicate BetweenOn(v: Vec3, a: Vec3, b: Vec3, i: nat)
    requires i < 3
  {
    (Channel(a, i) <= Channel(v, i) <= Channel(b, i)) || (Channel(b, i) <= Channel(v, i) <= Channel(a, i))
  }

  /** Every channel of `v` lies between the least and the greatest of `cs`. */
  ghost predicate WithinCorners(v: Vec3, cs: seq<Vec3>)
  {
    forall i | 0 <= i < 3 ::
      (exists j | 0 <= j < |cs| :: Channel(cs[j], i) <= Channel(v, i)) &&
      (exists j | 0 <= j < |cs| :: Channel(v, i) <= Channel(cs[j], i))
  }

  /** The four grid cells a bilinear blend reads. */
  function CornerCells(p: Palette, w: Span, h: Span): seq<Vec3>
    requires w.Within(TopColumn) && h.Within(TopRow)
  {
    [Cell(p, h.lower, w.lower), Cell(p, h.lower, w.upper), Cell(p, h.upper, w.lower), Cell(p, h.upper, w.upper)]
  }

  /** The four grid cells that the lookup of a wetness and shaped height blends. */
  function Corners(p: Palette, wetness: real, heightScale: real): seq<Vec3>
  {
    CornerCells(p, Band(WetCoord(wetness), TopColumn), Band(HeightCoord(heightScale), TopRow))
  }

  /**
    The grid branch of `Palette::get` on the continuous coordinates: the
    clamped surrounding indices and the fractional weights of each axis.
   */
  function Lookup(p: Palette, wetScale: real, heightScale: real): (r: Vec3)
    ensures WithinCorners(r, CornerCells(p, Band(wetScale, TopColumn), Band(heightScale, TopRow)))
  {
    var w := Band(wetScale, TopColumn);
    var h := Band(heightScale, TopRow);
    BilinearWithinCorners(p, w, h, Frac(wetScale), Frac(heightScale));
    Bilinear(p, w, h, Frac(wetScale), Frac(heightScale))
  }

  /**
    `Palette::get`. `salmon` and `darkGray` are the application's fixed
    shoreline and rock colours.
   */
  function Get(p: Palette, wetness: real, height: real, heightScale: real, neighbouring: bool,
               salmon: Vec3, darkGray: Vec3): (r: Vec3)
    ensures neighbouring ==> forall i | 0 <= i < 3 :: BetweenOn(r, darkGray, salmon, i)
    ensures !neighbouring ==> WithinCorners(r, Corners(p, wetness, heightScale))
  {
    if neighbouring then
      ShoreBlend(height, salmon, darkGray)
    else
      Lookup(p, WetCoord(wetness), HeightCoord(heightScale))
  }

  /** The scalar form of `Lerp`, one channel at a time. */
  function Mix(a: real, b: real, t: real): real
  {
    a * (1.0 - t) + b * t
  }

  lemma LerpChannel(a: Vec3, b: Vec3, t: real, i: nat)
    requires i < 3
    ensures Channel(Lerp(a, b, t), i) == Mix(Channel(a, i), Channel(b, i), t)
  {
  }

  /** A convex combination of two reals lies between them. */
  lemma ScalarLerpBetween(a: real, b: real, t: real)
    requires 0.0 <= t <= 1.0
    ensures (a <= Mix(a, b, t) <= b) || (b <= Mix(a, b, t) <= a)
  {
    assert a * (1.0 - t) + b * t == a + (b - a) * t;
    if a <= b {
      Smooth.NonNegativeProduct(b - a, t);
      Smooth.NonNegativeProduct(b - a, 1.0 - t);
    } else {
      Smooth.NonNegativeProduct(a - b, t);
      Smooth.NonNegativeProduct(a - b, 1.0 - t);
    }
  }

  lemma LerpBetweenAll(a: Vec3, b: Vec3, t: real)
    requires 0.0 <= t <= 1.0
    ensures forall i | 0 <= i < 3 :: BetweenOn(Lerp(a, b, t), a, b, i)
    ensures Lerp(a, b, t) == Add(Scale(b, t), Scale(a, 1.0 - t))
  {
    forall i | 0 <= i < 3
      ensures BetweenOn(Lerp(a, b, t), a, b, i)
    {
      LerpChannel(a, b, t, i);
      ScalarLerpBetween(Channel(a, i), Channel(b, i), t);
    }
  }

  lemma BilinearWithinCorners(p: Palette, w: Span, h: Span, wetDist: real, heightDist: real)
    requires w.Within(TopColumn) && h.Within(TopRow)
    requires 0.0 <= wetDist <= 1.0 && 0.0 <= heightDist <= 1.0
    ensures WithinCorners(Bilinear(p, w, h, wetDist, heightDist), CornerCells(p, w, h))
  {
    var cs := CornerCells(p, w, h);
    var top := Lerp(cs[2], cs[3], wetDist);
    var bottom := Lerp(cs[0], cs[1], wetDist);
    var r := Lerp(bottom, top, heightDist);
    assert r == Bilinear(p, w, h, wetDist, heightDist);
    LerpBetweenAll(cs[2], cs[3], wetDist);
    LerpBetweenAll(cs[0], cs[1], wetDist);
    LerpBetweenAll(bottom, top, heightDist);
    forall i | 0 <= i < 3
      ensures (exists j | 0 <= j < |cs| :: Channel(cs[j], i) <= Channel(r, i))
      ensures (exists j | 0 <= j < |cs| :: Channel(r, i) <= Channel(cs[j], i))
    {
      assert BetweenOn(r, bottom, top, i);
      assert BetweenOn(top, cs[2], cs[3], i);
      assert BetweenOn(bottom, cs[0], cs[1], i);
      var lo: nat, hi: nat;
      if Channel(bottom, i) <= Channel(top, i) {
        lo := if Channel(cs[0], i) <= Channel(cs[1], i) then 0 else 1;
        hi := if Channel(cs[2], i) <= Channel(cs[3], i) then 3 else 2;
      } else {
        lo := if Channel(cs[2], i) <= Channel(cs[3], i) then 2 else 3;
        hi := if Channel(cs[0], i) <= Channel(cs[1], i) then 1 else 0;
      }
      assert Channel(cs[lo], i) <= Channel(r, i);
      assert Channel(r, i) <= Channel(cs[hi], i);
    }
  }

  /**
    Next to water the colour depends only on the raw height: it is pure rock
    colour up to 0.98 and pure shoreline colour from 1.01 on.
   */
  lemma ShorelineSaturates(p: Palette, wetness: real, height: real, heightScale: real, salmon: Vec3, darkGray: Vec3)
    ensures height <= 0.98 ==> Get(p, wetness, height, heightScale, true, salmon, darkGray) == darkGray
    ensures 1.01 <= height ==> Get(p, wetness, height, heightScale, true, salmon, darkGray) == salmon
    ensures forall w, hs :: Get(p, w, height, hs, true, salmon, darkGray) == Get(p, wetness, height, heightScale, true, salmon, darkGray)
  {
  }

  /** On a grid point the lookup returns that one cell, with no blending. */
  lemma GridPointExact(p: Palette, wetness: real, heightScale: real, row: nat, column: nat)
    requires row <= TopRow && column <= TopColumn
    requires WetCoord(wetness) == column as real
    requires HeightCoord(heightScale) == row as real
    ensures forall height, salmon, darkGray ::
      Get(p, wetness, height, heightScale, false, salmon, darkGray) == Cell(p, row, column)
  {
    assert (column as real).Floor == column;
    assert (row as real).Floor == row;
  }

  /** From wetness coordinate 5 upwards the result no longer depends on wetness. */
  lemma WetSaturation(p: Palette, wetness1: real, wetness2: real, heightScale: real)
    requires WetCoord(wetness1) >= TopColumn as real && WetCoord(wetness2) >= TopColumn as real
    ensures forall h, s, d ::
      Get(p, wetness1, h, heightScale, false, s, d) == Get(p, wetness2, h, heightScale, false, s, d)
  {
    LookupWetSaturation(p, WetCoord(wetness1), WetCoord(wetness2), HeightCoord(heightScale));
  }

  lemma LookupWetSaturation(p: Palette, wetScale1: real, wetScale2: real, heightScale: real)
    requires wetScale1 >= TopColumn as real && wetScale2 >= TopColumn as real
    ensures Lookup(p, wetScale1, heightScale) == Lookup(p, wetScale2, heightScale)
  {
    var h := Band(heightScale, TopRow);
    LerpSame(Cell(p, h.lower, TopColumn), Frac(wetScale1));
    LerpSame(Cell(p, h.lower, TopColumn), Frac(wetScale2));
    LerpSame(Cell(p, h.upper, TopColumn), Frac(wetScale1));
    LerpSame(Cell(p, h.upper, TopColumn), Frac(wetScale2));
  }

  /** From height coordinate 3 upwards the result no longer depends on height. */
  lemma HeightSaturation(p: Palette, wetness: real, heightScale1: real, heightScale2: real)
    requires HeightCoord(heightScale1) >= TopRow as real && HeightCoord(heightScale2) >= TopRow as real
    ensures forall h, s, d ::
      Get(p, wetness, h, heightScale1, false, s, d) == Get(p, wetness, h, heightScale2, false, s, d)
  {
    LookupHeightSaturation(p, WetCoord(wetness), HeightCoord(heightScale1), HeightCoord(heightScale2));
  }

  lemma LookupHeightSaturation(p: Palette, wetScale: real, heightScale1: real, heightScale2: real)
    requires heightScale1 >= TopRow as real && heightScale2 >= TopRow as real
    ensures Lookup(p, wetScale, heightScale1) == Lookup(p, wetScale, heightScale2)
  {
    var w := Band(wetScale, TopColumn);
    var row := Lerp(Cell(p, TopRow, w.lower), Cell(p, TopRow, w.upper), Frac(wetScale));
    LerpSame(row, Frac(heightScale1));
    LerpSame(row, Frac(heightScale2));
  }

  lemma LerpSame(a: Vec3, t: real)
    ensures Lerp(a, a, t) == a
  {
  }

  /**
    No jump across a wetness grid line `column`: strictly inside the cell
    below it the lookup is one fixed bilinear polynomial in the coordinate,
    that polynomial reaches the value taken on the line at weight 1, and
    the polynomial of the cell above starts from the same value at weight 0.
   */
  lemma WetLineContinuity(p: Palette, column: nat, heightScale: real)
    requires column <= TopColumn
    ensures forall wetScale: real | 1 <= column && (column - 1) as real < wetScale < column as real ::
      Lookup(p, wetScale, heightScale)
        == Bilinear(p, Span(column - 1, column), Band(heightScale, TopRow), wetScale - (column - 1) as real, Frac(heightScale))
    ensures 1 <= column ==>
      Bilinear(p, Span(column - 1, column), Band(heightScale, TopRow), 1.0, Frac(heightScale)) == Lookup(p, column as real, heightScale)
    ensures column < TopColumn ==>
      Bilinear(p, Span(column, column + 1), Band(heightScale, TopRow), 0.0, Frac(heightScale)) == Lookup(p, column as real, heightScale)
  {
    forall wetScale: real | 1 <= column && (column - 1) as real < wetScale < column as real
      ensures Lookup(p, wetScale, heightScale)
        == Bilinear(p, Span(column - 1, column), Band(heightScale, TopRow), wetScale - (column - 1) as real, Frac(heightScale))
    {
      assert wetScale.Floor == column - 1;
      assert Ceil(wetScale) == column;
    }
    assert (column as real).Floor == column;
  }

  /** The same continuity across a height grid line `row`. */
  lemma HeightLineContinuity(p: Palette, row: nat, wetScale: real)
    requires row <= TopRow
    ensures forall heightScale: real | 1 <= row && (row - 1) as real < heightScale < row as real ::
      Lookup(p, wetScale, heightScale)
        == Bilinear(p, Band(wetScale, TopColumn), Span(row - 1, row), Frac(wetScale), heightScale - (row - 1) as real)
    ensures 1 <= row ==>
      Bilinear(p, Band(wetScale, TopColumn), Span(row - 1, row), Frac(wetScale), 1.0) == Lookup(p, wetScale, row as real)
    ensures row < TopRow ==>
      Bilinear(p, Band(wetScale, TopColumn), Span(row, row + 1), Frac(wetScale), 0.0) == Lookup(p, wetScale, row as real)
  {
    forall heightScale: real | 1 <= row && (row - 1) as real < heightScale < row as real
      ensures Lookup(p, wetScale, heightScale)
        == Bilinear(p, Band(wetScale, TopColumn), Span(row - 1, row), Frac(wetScale), heightScale - (row - 1) as real)
    {
      assert heightScale.Floor == row - 1;
      assert Ceil(heightScale) == row;
    }
    assert (row as real).Floor == row;
  }
}
