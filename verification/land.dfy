/**
  Terrain mesh synthesis (`create_land_mesh`).

  For every vertex of the simulated sphere, in vertex order: decide whether
  it touches water, pick its colour from the palette, darken it by a
  per-vertex jitter factor, quantise it to 8-bit RGBA, and emit one smoothed
  triangle per entry of its adjacency ring into two parallel buffers
  (positions and colours), three buffer entries per triangle.
 */
module Land {
  import opened Vectors
  import Biomes
  import Ranking

  /** Heights strictly below this are water. */
  const SeaLevel: real := 1.0

  /**
    A snapshot of the simulated world: per-vertex unit directions, heights,
    wetness, and the ordered ring of neighbour indices around each vertex.
   */
  datatype World = World(positions: seq<Vec3>, heights: seq<real>, wetness: seq<real>, adjacent: seq<seq<nat>>)

  /** A ring the fan code can walk: at least two entries, all of them vertices. */
  predicate ValidRing(w: World, ring: seq<nat>)
  {
    |ring| >= 2 && forall j | 0 <= j < |ring| :: ring[j] < |w.heights|
  }

  /**
    What the source indexes without checking: one entry per vertex in every
    field, and rings whose entries are vertex indices and whose length is at
    least two (`adj[len - 2]` underflows otherwise).
   */
  predicate WellFormed(w: World)
  {
    && |w.positions| == |w.heights| == |w.wetness| == |w.adjacent|
    && forall v | 0 <= v < |w.adjacent| :: ValidRing(w, w.adjacent[v])
  }

  /** `position * height`, the displaced position of vertex `v`. */
  function Scaled(w: World, v: nat): Vec3
    requires |w.positions| == |w.heights| && v < |w.heights|
  {
    Scale(w.positions[v], w.heights[v])
  }

  // ----- Shoreline detection -----

  /** `ring.iter().map(|&x| heights[x] < 1.0).fold(acc, |x, y| x | y)`. */
  function FoldBelowSea(heights: seq<real>, ring: seq<nat>, acc: bool): bool
    requires forall j | 0 <= j < |ring| :: ring[j] < |heights|
  {
    if |ring| == 0 then acc
    else FoldBelowSea(heights, ring[1..], acc || heights[ring[0]] < SeaLevel)
  }

  /** The `neighbouring` flag of vertex `source`. */
  function Neighbouring(heights: seq<real>, ring: seq<nat>, source: nat): bool
    requires source < |heights|
    requires forall j | 0 <= j < |ring| :: ring[j] < |heights|
  {
    FoldBelowSea(heights, ring, false) || heights[source] < SeaLevel
  }

  lemma {:induction false} FoldBelowSeaIff(heights: seq<real>, ring: seq<nat>, acc: bool)
    requires forall j | 0 <= j < |ring| :: ring[j] < |heights|
    ensures FoldBelowSea(heights, ring, acc) <==> acc || exists j | 0 <= j < |ring| :: heights[ring[j]] < SeaLevel
  {
    if |ring| > 0 {
      FoldBelowSeaIff(heights, ring[1..], acc || heights[ring[0]] < SeaLevel);
      if exists j | 0 <= j < |ring| :: heights[ring[j]] < SeaLevel {
        var j :| 0 <= j < |ring| && heights[ring[j]] < SeaLevel;
        if j > 0 {
          assert ring[1..][j - 1] == ring[j];
        }
      }
      if exists j | 0 <= j < |ring[1..]| :: heights[ring[1..][j]] < SeaLevel {
        var j :| 0 <= j < |ring[1..]| && heights[ring[1..][j]] < SeaLevel;
        assert ring[j + 1] == ring[1..][j];
      }
    }
  }

  /**
    A vertex is on the shoreline exactly when it, or some vertex of its
    ring, lies strictly below sea level. A height of exactly 1.0 is land.
   */
  lemma NeighbouringIff(heights: seq<real>, ring: seq<nat>, source: nat)
    requires source < |heights|
    requires forall j | 0 <= j < |ring| :: ring[j] < |heights|
    ensures (Neighbouring(heights, ring, source)
             <==> (heights[source] < SeaLevel || exists j | 0 <= j < |ring| :: heights[ring[j]] < SeaLevel))
  {
    FoldBelowSeaIff(heights, ring, false);
  }

  // ----- Height range -----

  /** The `f32::min` fold over all heights. */
  function Lowest(s: seq<real>): (m: real)
    requires |s| > 0
    ensures forall i | 0 <= i < |s| :: m <= s[i]
    ensures exists i | 0 <= i < |s| :: m == s[i]
  {
    if |s| == 1 then s[0]
    else
      var m := Lowest(s[..|s| - 1]);
      assert forall i | 0 <= i < |s| - 1 :: s[..|s| - 1][i] == s[i];
      if s[|s| - 1] < m then s[|s| - 1] else m
  }

  /** The `f32::max` fold over all heights. */
  function Highest(s: seq<real>): (m: real)
    requires |s| > 0
    ensures forall i | 0 <= i < |s| :: s[i] <= m
    ensures exists i | 0 <= i < |s| :: m == s[i]
  {
    if |s| == 1 then s[0]
    else
      var m := Highest(s[..|s| - 1]);
      assert forall i | 0 <= i < |s| - 1 :: s[..|s| - 1][i] == s[i];
      if m < s[|s| - 1] then s[|s| - 1] else m
  }

  /** Not every height is the same (otherwise min-max scaling divides by zero). */
  predicate HeightsVary(heights: seq<real>)
  {
    exists i, j | 0 <= i < |heights| && 0 <= j < |heights| :: heights[i] != heights[j]
  }

  /** Heights that vary come from at least two vertices. */
  lemma VaryingHasTwo(heights: seq<real>)
    requires HeightsVary(heights)
    ensures |heights| >= 2
  {
    var i, j :| 0 <= i < |heights| && 0 <= j < |heights| && heights[i] != heights[j];
    assert i != j;
  }

  /** `(height - min_height) / (max_height - min_height)`. */
  function NormalisedHeight(heights: seq<real>, v: nat): (r: real)
    requires v < |heights| && HeightsVary(heights)
    ensures 0.0 <= r <= 1.0
    ensures heights[v] == Lowest(heights) ==> r == 0.0
    ensures heights[v] == Highest(heights) ==> r == 1.0
  {
    RangeIsProper(heights);
    MinMaxScale(heights[v], Lowest(heights), Highest(heights))
  }

  /** `(x - lo) / (hi - lo)` for `x` inside a proper range `[lo, hi]`. */
  function MinMaxScale(x: real, lo: real, hi: real): (r: real)
    requires lo <= x <= hi && lo < hi
    ensures 0.0 <= r <= 1.0
    ensures x == lo ==> r == 0.0
    ensures x == hi ==> r == 1.0
  {
    UnitFraction(x - lo, hi - lo);
    (x - lo) / (hi - lo)
  }

  lemma RangeIsProper(heights: seq<real>)
    requires HeightsVary(heights)
    ensures Lowest(heights) < Highest(heights)
  {
    var i, j :| 0 <= i < |heights| && 0 <= j < |heights| && heights[i] != heights[j];
    assert Lowest(heights) <= heights[i] <= Highest(heights);
    assert Lowest(heights) <= heights[j] <= Highest(heights);
  }

  lemma UnitFraction(a: real, b: real)
    requires 0.0 <= a <= b && 0.0 < b
    ensures 0.0 <= a / b <= 1.0
  {
    assert (a / b) * b == a;
  }

  // ----- Colour -----

  /**
    The parts of colouring the world snapshot does not carry: the palette,
    the two fixed shoreline colours, and `f32::sqrt`, which the model does
    not interpret.
   */
  datatype Colouring = Colouring(palette: Biomes.Palette, salmon: Vec3, darkGray: Vec3, sqrt: real -> real)

  /** `make_colour`: reshape both coordinates by `1 - sqrt(1 - x)`, then look up. */
  function MakeColour(c: Colouring, height: real, wetness: real, heightScale: real, neighbouring: bool): (r: Vec3)
    ensures neighbouring ==> r == Biomes.ShoreBlend(height, c.salmon, c.darkGray)
  {
    var heightScale' := 1.0 - c.sqrt(1.0 - heightScale);
    var wetness' := 1.0 - c.sqrt(1.0 - wetness);
    Biomes.Get(c.palette, wetness', height, heightScale', neighbouring, c.salmon, c.darkGray)
  }

  /** A factor drawn by `gen_range(0.9..1.0)`. */
  predicate JitterFactor(f: real)
  {
    0.9 <= f < 1.0
  }

  /** `colour *= factor`: the jitter only ever darkens a non-negative channel. */
  function Jitter(colour: Vec3, factor: real): (r: Vec3)
    requires JitterFactor(factor)
    ensures forall i | 0 <= i < 3 && 0.0 <= Channel(colour, i) ::
      0.9 * Channel(colour, i) <= Channel(r, i) <= Channel(colour, i)
  {
    var r := Scale(colour, factor);
    forall i | 0 <= i < 3 && 0.0 <= Channel(colour, i)
      ensures 0.9 * Channel(colour, i) <= Channel(r, i) <= Channel(colour, i)
    {
      JitterChannel(colour, factor, i);
    }
    r
  }

  lemma JitterChannel(colour: Vec3, factor: real, i: nat)
    requires i < 3 && 0.0 <= Channel(colour, i) && JitterFactor(factor)
    ensures 0.9 * Channel(colour, i) <= Channel(Scale(colour, factor), i) <= Channel(colour, i)
  {
    var x := Channel(colour, i);
    ChannelScale(colour, factor, i);
    ScaleBetween(x, factor);
    assert Channel(Scale(colour, factor), i) == x * factor;
  }

  lemma ScaleBetween(x: real, f: real)
    requires 0.0 <= x && JitterFactor(f)
    ensures 0.9 * x <= x * f <= x
  {
    assert x * f - 0.9 * x == x * (f - 0.9);
    assert x - x * f == x * (1.0 - f);
  }

  /** An 8-bit colour channel and an RGBA colour. */
  datatype Rgba = Rgba(r: nat, g: nat, b: nat, a: nat)

  /**
    `x as u8` for a float: Rust's cast truncates toward zero and saturates,
    so everything at or below 0 becomes 0 and everything from 255 up is 255.
   */
  function ToU8(x: real): (b: nat)
    ensures b <= 255
    ensures x <= 0.0 ==> b == 0
    ensures 255.0 <= x ==> b == 255
    ensures 0.0 <= x <= 255.0 ==> b as real <= x < b as real + 1.0
  {
    if x <= 0.0 then 0 else if 255.0 <= x then 255 else x.Floor
  }

  /** `colour * 255.0` cast channel by channel, with opaque alpha. */
  function Quantise(colour: Vec3): (q: Rgba)
    ensures q.r <= 255 && q.g <= 255 && q.b <= 255 && q.a == 255
    ensures 0.0 <= colour.x <= 1.0 ==> q.r as real <= 255.0 * colour.x < q.r as real + 1.0
    ensures 0.0 <= colour.y <= 1.0 ==> q.g as real <= 255.0 * colour.y < q.g as real + 1.0
    ensures 0.0 <= colour.z <= 1.0 ==> q.b as real <= 255.0 * colour.z < q.b as real + 1.0
    ensures colour.x <= 0.0 ==> q.r == 0
    ensures colour.y <= 0.0 ==> q.g == 0
    ensures colour.z <= 0.0 ==> q.b == 0
    ensures 1.0 <= colour.x ==> q.r == 255
    ensures 1.0 <= colour.y ==> q.g == 255
    ensures 1.0 <= colour.z ==> q.b == 255
  {
    var c := Scale(colour, 255.0);
    Rgba(ToU8(c.x), ToU8(c.y), ToU8(c.z), 255)
  }

  /** Keep every entry: the wetness ranking's filter. */
  predicate KeepAll(x: real)
  {
    true
  }

  /**
    The 8-bit colour the source gives every triangle of vertex `v`. The
    wetness coordinate is the vertex's wetness rank over all vertices; the
    height coordinate is its min-max normalised height (the land-only height
    rank the source also computes is never read).
   */
  ghost function VertexColour(w: World, c: Colouring, jitter: seq<real>, v: nat): Rgba
    requires WellFormed(w) && v < |w.adjacent|
    requires HeightsVary(w.heights)
    requires |jitter| == |w.adjacent| && JitterFactor(jitter[v])
  {
    AllKept(w.wetness);
    var colour := MakeColour(c, w.heights[v], Ranking.ExpectedRank(w.wetness, KeepAll, v),
                             NormalisedHeight(w.heights, v),
                             Neighbouring(w.heights, w.adjacent[v], v));
    Quantise(Jitter(colour, jitter[v]))
  }

  lemma AllKept(items: seq<real>)
    ensures Ranking.Count(items, KeepAll) == |items|
  {
    AllKeptUpTo(items, |items|);
  }

  lemma {:induction false} AllKeptUpTo(items: seq<real>, n: nat)
    requires n <= |items|
    ensures |Ranking.IncludedUpTo(items, KeepAll, n)| == n
  {
    if n > 0 {
      AllKeptUpTo(items, n - 1);
    }
  }

  /**
    A vertex strictly below sea level is coloured by the shoreline blend of
    its raw height alone: wetness, rank and palette play no part.
   */
  lemma UnderwaterUsesShoreBlend(w: World, c: Colouring, jitter: seq<real>, v: nat)
    requires WellFormed(w) && v < |w.adjacent|
    requires HeightsVary(w.heights)
    requires |jitter| == |w.adjacent| && JitterFactor(jitter[v])
    requires w.heights[v] < SeaLevel
    ensures VertexColour(w, c, jitter, v) == Quantise(Jitter(Biomes.ShoreBlend(w.heights[v], c.salmon, c.darkGray), jitter[v]))
  {
  }

  // ----- Fan triangulation -----

  /** The three ring entries one call of `make(a, b, c)` receives. */
  datatype Triple = Triple(a: nat, b: nat, c: nat)

  /**
    The calls the source makes for one ring: one per `windows(3)` window,
    then `make(adj[len-2], adj[len-1], adj[0])` and
    `make(adj[len-1], adj[0], adj[1])` to close the fan.
   */
  function FanTriples(ring: seq<nat>): seq<Triple>
    requires |ring| >= 2
  {
    var n := |ring|;
    seq(n - 2, i requires 0 <= i < n - 2 => Triple(ring[i], ring[i + 1], ring[i + 2]))
      + [Triple(ring[n - 2], ring[n - 1], ring[0]), Triple(ring[n - 1], ring[0], ring[1])]
  }

  /** The successor of position `i` around a ring of `n` entries. */
  function Next(i: nat, n: nat): (j: nat)
    requires i < n
    ensures j < n
    ensures j == (i + 1) % n
  {
    if i + 1 < n then i + 1 else 0
  }

  /** The `i`-th cyclic window of a ring: entry `i` and the two after it. */
  function CyclicTriple(ring: seq<nat>, i: nat): Triple
    requires |ring| >= 2 && i < |ring|
  {
    var n := |ring|;
    Triple(ring[i], ring[Next(i, n)], ring[Next(Next(i, n), n)])
  }

  /**
    Windows plus the two wrap-around calls are exactly the `n` cyclic windows
    of the ring, in order: one triangle per ring entry.
   */
  lemma FanTriplesCyclic(ring: seq<nat>)
    requires |ring| >= 2
    ensures |FanTriples(ring)| == |ring|
    ensures forall i | 0 <= i < |ring| :: FanTriples(ring)[i] == CyclicTriple(ring, i)
  {
  }

  /** One spoke of the fan, with the same colour on its three corners. */
  datatype Triangle = Triangle(apex: Vec3, near: Vec3, far: Vec3)

  /**
    `make(a, b, c)` for vertex `source`: the apex is the vertex itself and
    the two far corners are the centroids `(P[s] + P[b] + P[a]) / 3` and
    `(P[s] + P[b] + P[c]) / 3`, which pulls the polygon's outline inward.
   */
  function MakeTriangle(w: World, source: nat, t: Triple): (r: Triangle)
    requires |w.positions| == |w.heights|
    requires source < |w.heights| && t.a < |w.heights| && t.b < |w.heights| && t.c < |w.heights|
    ensures r.apex == Scaled(w, source)
    ensures Scale(r.near, 3.0) == Add(Add(Scaled(w, source), Scaled(w, t.a)), Scaled(w, t.b))
    ensures Scale(r.far, 3.0) == Add(Add(Scaled(w, source), Scaled(w, t.c)), Scaled(w, t.b))
  {
    var half := Add(Scaled(w, source), Scaled(w, t.b));
    Triangle(Scaled(w, source), Div(Add(half, Scaled(w, t.a)), 3.0), Div(Add(half, Scaled(w, t.c)), 3.0))
  }

  /** Triangle `i` of vertex `v`'s fan, by the cyclic-window definition. */
  function Spoke(w: World, v: nat, i: nat): Triangle
    requires WellFormed(w) && v < |w.adjacent| && i < |w.adjacent[v]|
  {
    var ring := w.adjacent[v];
    var n := |ring|;
    assert ring[i] < |w.heights| && ring[Next(i, n)] < |w.heights| && ring[Next(Next(i, n), n)] < |w.heights|;
    MakeTriangle(w, v, CyclicTriple(ring, i))
  }

  /**
    The fan is closed: every spoke has the vertex itself as apex, and the far
    corner of spoke `i` is the near corner of spoke `i + 1` (cyclically), so
    consecutive spokes share an edge and the last one meets the first.
   */
  lemma FanClosed(w: World, v: nat, i: nat)
    requires WellFormed(w) && v < |w.adjacent| && i < |w.adjacent[v]|
    ensures Spoke(w, v, i).apex == Scaled(w, v)
    ensures Spoke(w, v, i).far == Spoke(w, v, Next(i, |w.adjacent[v]|)).near
  {
    var ring := w.adjacent[v];
    var n := |ring|;
    var j := Next(i, n);
    var s := Scaled(w, v);
    var pb := Scaled(w, ring[j]);
    var pc := Scaled(w, ring[Next(j, n)]);
    assert Spoke(w, v, i).far == Div(Add(Add(s, pb), pc), 3.0);
    assert Spoke(w, v, j).near == Div(Add(Add(s, pc), pb), 3.0);
  }

  // ----- Buffer assembly -----

  /** The number of spokes emitted before vertex `v`. */
  function Offset(adjacent: seq<seq<nat>>, v: nat): nat
    requires v <= |adjacent|
  {
    if v == 0 then 0 else Offset(adjacent, v - 1) + |adjacent[v - 1]|
  }

  /** The sum of all ring lengths: the number of triangles in the mesh. */
  function RingTotal(adjacent: seq<seq<nat>>): nat
  {
    Offset(adjacent, |adjacent|)
  }

  /** Triangle number `k` of the buffers is `tri`, coloured `c` on all corners. */
  ghost predicate Block(points: seq<Vec3>, colours: seq<Rgba>, k: nat, tri: Triangle, c: Rgba)
  {
    && 3 * k + 2 < |points| && 3 * k + 2 < |colours|
    && points[3 * k] == tri.apex && points[3 * k + 1] == tri.near && points[3 * k + 2] == tri.far
    && colours[3 * k] == c && colours[3 * k + 1] == c && colours[3 * k + 2] == c
  }

  /**
    The colour computation of the source's loop body for vertex `v`, given
    the wetness ranks and height range computed up front.
   */
  function ColourFromRanks(w: World, c: Colouring, jitter: seq<real>, wetRanks: seq<real>, v: nat): Rgba
    requires WellFormed(w) && v < |w.adjacent| && |wetRanks| == |w.heights|
    requires HeightsVary(w.heights)
    requires |jitter| == |w.adjacent| && JitterFactor(jitter[v])
  {
    var colour := MakeColour(c, w.heights[v], wetRanks[v], NormalisedHeight(w.heights, v),
                             Neighbouring(w.heights, w.adjacent[v], v));
    Quantise(Jitter(colour, jitter[v]))
  }

  /** The two buffers extended by `more` keep every triangle they held. */
  lemma BlockPrefix(points: seq<Vec3>, colours: seq<Rgba>, morePoints: seq<Vec3>, moreColours: seq<Rgba>,
                    k: nat, tri: Triangle, c: Rgba)
    requires Block(points, colours, k, tri, c)
    ensures Block(points + morePoints, colours + moreColours, k, tri, c)
  {
  }

  /** Triangle `k` of a fan appended after `base` triangles is triangle `base + k`. */
  lemma BlockShift(points: seq<Vec3>, colours: seq<Rgba>, fanPoints: seq<Vec3>, fanColours: seq<Rgba>,
                   base: nat, k: nat, tri: Triangle, c: Rgba)
    requires |points| == |colours| == 3 * base
    requires Block(fanPoints, fanColours, k, tri, c)
    ensures Block(points + fanPoints, colours + fanColours, base + k, tri, c)
  {
    assert 3 * (base + k) == |points| + 3 * k;
  }

  /**
    The inner loop of the source for one vertex: one `make` call per entry of
    `FanTriples`, each pushing the three corners and three copies of the colour.
   */
  method EmitFan(w: World, v: nat, colour: Rgba) returns (fanPoints: seq<Vec3>, fanColours: seq<Rgba>)
    requires WellFormed(w) && v < |w.adjacent|
    ensures |fanPoints| == |fanColours| == 3 * |w.adjacent[v]|
    ensures forall i | 0 <= i < |w.adjacent[v]| :: Block(fanPoints, fanColours, i, Spoke(w, v, i), colour)
  {
    var ring := w.adjacent[v];
    var triples := FanTriples(ring);
    FanTriplesCyclic(ring);
    fanPoints, fanColours := [], [];
    for t := 0 to |triples|
      invariant |fanPoints| == |fanColours| == 3 * t
      invariant forall i | 0 <= i < t :: Block(fanPoints, fanColours, i, Spoke(w, v, i), colour)
    {
      var tri := MakeTriangle(w, v, triples[t]);
      var morePoints := [tri.apex, tri.near, tri.far];
      var moreColours := [colour, colour, colour];
      forall i | 0 <= i < t
        ensures Block(fanPoints + morePoints, fanColours + moreColours, i, Spoke(w, v, i), colour)
      {
        BlockPrefix(fanPoints, fanColours, morePoints, moreColours, i, Spoke(w, v, i), colour);
      }
      fanPoints, fanColours := fanPoints + morePoints, fanColours + moreColours;
    }
  }

  /** Every spoke of vertex `u` is in the buffers at its place, coloured `colour`. */
  ghost predicate FanAt(w: World, u: nat, colour: Rgba, points: seq<Vec3>, colours: seq<Rgba>)
    requires WellFormed(w) && u < |w.adjacent|
  {
    forall i | 0 <= i < |w.adjacent[u]| :: Block(points, colours, Offset(w.adjacent, u) + i, Spoke(w, u, i), colour)
  }

  /** The fans of all vertices below `upto`, each in its vertex's colour. */
  ghost predicate FansEmitted(w: World, vertexColours: seq<Rgba>, points: seq<Vec3>, colours: seq<Rgba>, upto: nat)
    requires WellFormed(w) && upto <= |w.adjacent| == |vertexColours|
  {
    forall u | 0 <= u < upto :: FanAt(w, u, vertexColours[u], points, colours)
  }

  /** Appending to the buffers keeps a fan already emitted. */
  lemma FanAtPrefix(w: World, u: nat, colour: Rgba, points: seq<Vec3>, colours: seq<Rgba>,
                    morePoints: seq<Vec3>, moreColours: seq<Rgba>)
    requires WellFormed(w) && u < |w.adjacent|
    requires FanAt(w, u, colour, points, colours)
    ensures FanAt(w, u, colour, points + morePoints, colours + moreColours)
  {
    forall i | 0 <= i < |w.adjacent[u]|
      ensures Block(points + morePoints, colours + moreColours, Offset(w.adjacent, u) + i, Spoke(w, u, i), colour)
    {
      BlockPrefix(points, colours, morePoints, moreColours, Offset(w.adjacent, u) + i, Spoke(w, u, i), colour);
    }
  }

  /** Spoke `i` of a fan built on its own is triangle `Offset(v) + i` once appended. */
  lemma SpokeShift(w: World, v: nat, i: nat, colour: Rgba, points: seq<Vec3>, colours: seq<Rgba>,
                   fanPoints: seq<Vec3>, fanColours: seq<Rgba>)
    requires WellFormed(w) && v < |w.adjacent| && i < |w.adjacent[v]|
    requires |points| == |colours| == 3 * Offset(w.adjacent, v)
    requires Block(fanPoints, fanColours, i, Spoke(w, v, i), colour)
    ensures Block(points + fanPoints, colours + fanColours, Offset(w.adjacent, v) + i, Spoke(w, v, i), colour)
  {
    BlockShift(points, colours, fanPoints, fanColours, Offset(w.adjacent, v), i, Spoke(w, v, i), colour);
  }

  /** A fan built on its own lands at `Offset(v)` once appended after the fans before it. */
  lemma FanAtShift(w: World, v: nat, colour: Rgba, points: seq<Vec3>, colours: seq<Rgba>,
                   fanPoints: seq<Vec3>, fanColours: seq<Rgba>)
    requires WellFormed(w) && v < |w.adjacent|
    requires |points| == |colours| == 3 * Offset(w.adjacent, v)
    requires forall i | 0 <= i < |w.adjacent[v]| :: Block(fanPoints, fanColours, i, Spoke(w, v, i), colour)
    ensures FanAt(w, v, colour, points + fanPoints, colours + fanColours)
  {
    forall i | 0 <= i < |w.adjacent[v]|
      ensures Block(points + fanPoints, colours + fanColours, Offset(w.adjacent, v) + i, Spoke(w, v, i), colour)
    {
      SpokeShift(w, v, i, colour, points, colours, fanPoints, fanColours);
    }
  }

  lemma ExtendFans(w: World, vertexColours: seq<Rgba>, points: seq<Vec3>, colours: seq<Rgba>,
                   fanPoints: seq<Vec3>, fanColours: seq<Rgba>, v: nat)
    requires WellFormed(w) && v < |w.adjacent| == |vertexColours|
    requires |points| == |colours| == 3 * Offset(w.adjacent, v)
    requires FansEmitted(w, vertexColours, points, colours, v)
    requires forall i | 0 <= i < |w.adjacent[v]| :: Block(fanPoints, fanColours, i, Spoke(w, v, i), vertexColours[v])
    ensures FansEmitted(w, vertexColours, points + fanPoints, colours + fanColours, v + 1)
  {
    forall u | 0 <= u < v
      ensures FanAt(w, u, vertexColours[u], points + fanPoints, colours + fanColours)
    {
      FanAtPrefix(w, u, vertexColours[u], points, colours, fanPoints, fanColours);
    }
    FanAtShift(w, v, vertexColours[v], points, colours, fanPoints, fanColours);
    FansEmittedNext(w, vertexColours, points + fanPoints, colours + fanColours, v);
  }

  lemma FansEmittedNext(w: World, vertexColours: seq<Rgba>, points: seq<Vec3>, colours: seq<Rgba>, v: nat)
    requires WellFormed(w) && v < |w.adjacent| == |vertexColours|
    requires FansEmitted(w, vertexColours, points, colours, v)
    requires FanAt(w, v, vertexColours[v], points, colours)
    ensures FansEmitted(w, vertexColours, points, colours, v + 1)
  {
  }

  /** The colour the loop computes from the precomputed ranks is the vertex's colour. */
  lemma VertexColourIs(w: World, c: Colouring, jitter: seq<real>, wetRanks: seq<real>, v: nat)
    requires WellFormed(w) && v < |w.adjacent|
    requires HeightsVary(w.heights)
    requires |jitter| == |w.adjacent| && JitterFactor(jitter[v])
    requires |wetRanks| == |w.heights|
    requires Ranking.Count(w.wetness, KeepAll) != 1
    requires wetRanks[v] == Ranking.ExpectedRank(w.wetness, KeepAll, v)
    ensures ColourFromRanks(w, c, jitter, wetRanks, v) == VertexColour(w, c, jitter, v)
  {
  }

  /** All fans emitted means every spoke sits at its place in the buffers. */
  lemma FansEmittedAll(w: World, vertexColours: seq<Rgba>, points: seq<Vec3>, colours: seq<Rgba>)
    requires WellFormed(w) && |w.adjacent| == |vertexColours|
    requires FansEmitted(w, vertexColours, points, colours, |w.adjacent|)
    ensures forall v, i | 0 <= v < |w.adjacent| && 0 <= i < |w.adjacent[v]| ::
      Block(points, colours, Offset(w.adjacent, v) + i, Spoke(w, v, i), vertexColours[v])
  {
    forall v, i | 0 <= v < |w.adjacent| && 0 <= i < |w.adjacent[v]|
      ensures Block(points, colours, Offset(w.adjacent, v) + i, Spoke(w, v, i), vertexColours[v])
    {
      assert FanAt(w, v, vertexColours[v], points, colours);
    }
  }

  /**
    The source's vertex loop: for each vertex in order, compute its colour
    from the precomputed wetness ranks and emit its fan.
   */
  method EmitFans(w: World, c: Colouring, jitter: seq<real>, wetRanks: seq<real>) returns (points: seq<Vec3>, colours: seq<Rgba>)
    requires WellFormed(w) && HeightsVary(w.heights) && |wetRanks| == |w.heights|
    requires |jitter| == |w.adjacent| && forall v | 0 <= v < |jitter| :: JitterFactor(jitter[v])
    ensures |points| == |colours| == 3 * RingTotal(w.adjacent)
    ensures forall v, i | 0 <= v < |w.adjacent| && 0 <= i < |w.adjacent[v]| ::
      Block(points, colours, Offset(w.adjacent, v) + i, Spoke(w, v, i), ColourFromRanks(w, c, jitter, wetRanks, v))
  {
    ghost var vertexColours := seq(|w.adjacent|, u requires 0 <= u < |w.adjacent| => ColourFromRanks(w, c, jitter, wetRanks, u));
    points, colours := [], [];
    for v := 0 to |w.adjacent|
      invariant |points| == |colours| == 3 * Offset(w.adjacent, v)
      invariant FansEmitted(w, vertexColours, points, colours, v)
    {
      var colour := ColourFromRanks(w, c, jitter, wetRanks, v);
      var fanPoints, fanColours := EmitFan(w, v, colour);
      ExtendFans(w, vertexColours, points, colours, fanPoints, fanColours, v);
      points, colours := points + fanPoints, colours + fanColours;
    }
    FansEmittedAll(w, vertexColours, points, colours);
  }

  /**
    `create_land_mesh` up to the mesh builder: the parallel position and
    colour buffers. `jitter[v]` is the `v`-th draw of the seeded generator.
    There are three entries per triangle and one triangle per ring entry,
    vertex after vertex; spoke `i` of vertex `v` is triangle number
    `Offset(v) + i` and carries `v`'s colour on all three corners.
   */
  method CreateLandMesh(w: World, c: Colouring, jitter: seq<real>) returns (points: seq<Vec3>, colours: seq<Rgba>)
    requires WellFormed(w)
    requires HeightsVary(w.heights)
    requires |jitter| == |w.adjacent| && forall v | 0 <= v < |jitter| :: JitterFactor(jitter[v])
    ensures |points| == |colours| == 3 * RingTotal(w.adjacent)
    ensures forall v, i | 0 <= v < |w.adjacent| && 0 <= i < |w.adjacent[v]| ::
      Block(points, colours, Offset(w.adjacent, v) + i, Spoke(w, v, i), VertexColour(w, c, jitter, v))
  {
    AllKept(w.wetness);
    VaryingHasTwo(w.heights);
    var wetRanks := Ranking.SortedIdx(w.wetness, KeepAll, |w.heights|);
    points, colours := EmitFans(w, c, jitter, wetRanks);
    forall v | 0 <= v < |w.adjacent|
      ensures ColourFromRanks(w, c, jitter, wetRanks, v) == VertexColour(w, c, jitter, v)
    {
      VertexColourIs(w, c, jitter, wetRanks, v);
    }
  }
}
