/**
  Rank normalisation of a per-vertex scalar field (`get_sorted_idx`).

  The source enumerates the field, keeps the entries that pass a filter,
  stable-sorts them by value, and writes `position / (kept - 1)` into a
  fresh zero-filled vector at each kept entry's original index. This module
  models that pipeline as a method and proves that it computes the rank of
  each entry in the order "smaller value first, ties by original index",
  an order-statistics definition that does not mention sorting at all.
 */
module Ranking {

  /**
    The order the stable sort produces: by value, and among equal values by
    original index (a stable sort keeps the `enumerate` order of ties).
   */
  predicate Precedes(items: seq<real>, j: nat, i: nat)
    requires j < |items| && i < |items|
  {
    items[j] < items[i] || (items[j] == items[i] && j < i)
  }

  predicate ValidIndices(items: seq<real>, s: seq<nat>)
  {
    forall q | 0 <= q < |s| :: s[q] < |items|
  }

  /** `s` lists indices in strictly increasing sort order. */
  predicate SortedBy(items: seq<real>, s: seq<nat>)
  {
    ValidIndices(items, s) &&
    forall p, q | 0 <= p < q < |s| :: Precedes(items, s[p], s[q])
  }

  predicate Distinct(s: seq<nat>)
  {
    forall p, q | 0 <= p < q < |s| :: s[p] != s[q]
  }

  /** The indices below `n` whose item passes the filter, in index order. */
  function IncludedUpTo(items: seq<real>, keep: real -> bool, n: nat): (ord: seq<nat>)
    requires n <= |items|
    ensures ValidIndices(items, ord)
    ensures forall q | 0 <= q < |ord| :: ord[q] < n && keep(items[ord[q]])
    ensures forall i | 0 <= i < n && keep(items[i]) :: i in ord
    ensures forall p, q | 0 <= p < q < |ord| :: ord[p] < ord[q]
  {
    if n == 0 then []
    else IncludedUpTo(items, keep, n - 1) + (if keep(items[n - 1]) then [n - 1] else [])
  }

  /** `items.enumerate().filter(|(_, x)| filter(x))`, as indices. */
  function Included(items: seq<real>, keep: real -> bool): seq<nat>
  {
    IncludedUpTo(items, keep, |items|)
  }

  /** How many entries pass the filter. */
  function Count(items: seq<real>, keep: real -> bool): nat
  {
    |Included(items, keep)|
  }

  /**
    The rank of entry `i`: how many kept entries come before it in the
    sort order. This is the reference definition the method is proved
    against.
   */
  ghost function RankOf(items: seq<real>, keep: real -> bool, i: nat): nat
    requires i < |items|
  {
    |set j | 0 <= j < |items| && keep(items[j]) && Precedes(items, j, i)|
  }

  /** Position `p` of `k` sorted entries as a fraction, `p / (k - 1)`. */
  function Grade(p: nat, k: nat): real
    requires k != 1
  {
    p as real / (k - 1) as real
  }

  lemma GradeBounds(p: nat, k: nat)
    requires p < k && k >= 2
    ensures 0.0 <= Grade(p, k) <= 1.0
  {
    var d := (k - 1) as real;
    assert Grade(p, k) * d == p as real;
  }

  lemma GradeStrictlyIncreasing(p: nat, q: nat, k: nat)
    requires p < q && k >= 2
    ensures Grade(p, k) < Grade(q, k)
  {
    var d := (k - 1) as real;
    assert Grade(q, k) - Grade(p, k) == (q - p) as real / d;
  }

  /** The value the source writes at index `i` of the output. */
  ghost function ExpectedRank(items: seq<real>, keep: real -> bool, i: nat): real
    requires Count(items, keep) != 1
  {
    if i < |items| && keep(items[i])
    then Grade(RankOf(items, keep, i), Count(items, keep))
    else 0.0
  }

  /** Insert index `x` into a sorted list of indices at its sort position. */
  function Insert(items: seq<real>, x: nat, s: seq<nat>): (r: seq<nat>)
    requires x < |items| && ValidIndices(items, s)
    ensures multiset(r) == multiset(s) + multiset{x}
    ensures ValidIndices(items, r)
  {
    if |s| == 0 then [x]
    else if Precedes(items, x, s[0]) then [x] + s
    else
      assert s == [s[0]] + s[1..];
      [s[0]] + Insert(items, x, s[1..])
  }

  lemma SortedCons(items: seq<real>, a: nat, t: seq<nat>)
    requires a < |items| && SortedBy(items, t)
    requires forall y | y in t :: Precedes(items, a, y)
    ensures SortedBy(items, [a] + t)
  {
    var r := [a] + t;
    forall p, q | 0 <= p < q < |r|
      ensures Precedes(items, r[p], r[q])
    {
      assert r[q] == t[q - 1];
      if p > 0 {
        assert r[p] == t[p - 1];
      }
    }
  }

  lemma {:induction false} InsertSorted(items: seq<real>, x: nat, s: seq<nat>)
    requires x < |items| && SortedBy(items, s) && x !in s
    ensures SortedBy(items, Insert(items, x, s))
  {
    if |s| == 0 {
    } else if Precedes(items, x, s[0]) {
      forall y | y in s
        ensures Precedes(items, x, y)
      {
        var q :| 0 <= q < |s| && s[q] == y;
        if q > 0 {
          assert Precedes(items, s[0], s[q]);
        }
      }
      SortedCons(items, x, s);
    } else {
      var tail := s[1..];
      assert SortedBy(items, tail) by {
        forall p, q | 0 <= p < q < |tail|
          ensures Precedes(items, tail[p], tail[q])
        {
          assert tail[p] == s[p + 1] && tail[q] == s[q + 1];
        }
      }
      assert x !in tail;
      InsertSorted(items, x, tail);
      var rest := Insert(items, x, tail);
      forall y | y in rest
        ensures Precedes(items, s[0], y)
      {
        assert y in multiset(rest);
        if y != x {
          assert y in multiset(tail);
          var q :| 0 <= q < |tail| && tail[q] == y;
          assert s[q + 1] == y;
        }
      }
      SortedCons(items, s[0], rest);
      assert Insert(items, x, s) == [s[0]] + rest;
    }
  }

  /** `sort_by(|x, y| x.1.total_cmp(&y.1))` on the kept indices. */
  function Sort(items: seq<real>, s: seq<nat>): (r: seq<nat>)
    requires ValidIndices(items, s)
    ensures multiset(r) == multiset(s)
    ensures ValidIndices(items, r)
  {
    if |s| == 0 then []
    else
      assert s == [s[0]] + s[1..];
      Insert(items, s[0], Sort(items, s[1..]))
  }

  lemma {:induction false} SortSorted(items: seq<real>, s: seq<nat>)
    requires ValidIndices(items, s) && Distinct(s)
    ensures SortedBy(items, Sort(items, s))
  {
    if |s| > 0 {
      assert s == [s[0]] + s[1..];
      SortSorted(items, s[1..]);
      var rest := Sort(items, s[1..]);
      assert s[0] !in multiset(s[1..]);
      assert s[0] !in multiset(rest);
      InsertSorted(items, s[0], rest);
    }
  }

  lemma {:induction false} PrefixCard(s: seq<nat>, p: nat)
    requires Distinct(s)
    requires p <= |s|
    ensures |set q | 0 <= q < p :: s[q]| == p
  {
    if p > 0 {
      PrefixCard(s, p - 1);
      var smaller := set q | 0 <= q < p - 1 :: s[q];
      assert (set q | 0 <= q < p :: s[q]) == smaller + {s[p - 1]};
      assert s[p - 1] !in smaller;
    }
  }

  /** In a sorted list of exactly the kept indices, position equals rank. */
  lemma PositionIsRank(items: seq<real>, keep: real -> bool, ord: seq<nat>, p: nat)
    requires SortedBy(items, ord)
    requires forall i | 0 <= i < |items| :: keep(items[i]) <==> i in ord
    requires p < |ord|
    ensures RankOf(items, keep, ord[p]) == p
  {
    var before := set j | 0 <= j < |items| && keep(items[j]) && Precedes(items, j, ord[p]);
    var prefix := set q | 0 <= q < p :: ord[q];
    forall j | j in before
      ensures j in prefix
    {
      var q :| 0 <= q < |ord| && ord[q] == j;
      assert q < p;
    }
    assert before == prefix;
    PrefixCard(ord, p);
  }

  /**
    The sorted order of the kept indices exists and numbers them by rank:
    the `p`-th entry of the sort has rank `p`.
   */
  lemma RankWitness(items: seq<real>, keep: real -> bool) returns (ord: seq<nat>)
    ensures ord == Sort(items, Included(items, keep))
    ensures SortedBy(items, ord)
    ensures forall i | 0 <= i < |items| :: keep(items[i]) <==> i in ord
    ensures |ord| == Count(items, keep)
    ensures forall p | 0 <= p < |ord| :: RankOf(items, keep, ord[p]) == p
  {
    var kept := Included(items, keep);
    ord := Sort(items, kept);
    SortSorted(items, kept);
    assert |ord| == |multiset(ord)| == |multiset(kept)| == |kept|;
    forall i | 0 <= i < |items|
      ensures keep(items[i]) <==> i in ord
    {
      assert i in ord <==> i in multiset(kept);
    }
    forall p | 0 <= p < |ord|
      ensures RankOf(items, keep, ord[p]) == p
    {
      PositionIsRank(items, keep, ord, p);
    }
  }

  /** The `enumerate().filter(..).collect()` loop. */
  method KeptIndices(items: seq<real>, keep: real -> bool) returns (ord: seq<nat>)
    ensures ord == Included(items, keep)
  {
    ord := [];
    for i := 0 to |items|
      invariant ord == IncludedUpTo(items, keep, i)
    {
      if keep(items[i]) {
        ord := ord + [i];
      }
    }
  }

  /**
    The `for_each` that writes `position / (k - 1)` at each sorted entry's
    original index into a zero-filled vector of length `len`.
   */
  method Scatter(ord: seq<nat>, len: nat) returns (scale: seq<real>)
    requires Distinct(ord)
    requires forall q | 0 <= q < |ord| :: ord[q] < len
    requires |ord| != 1
    ensures |scale| == len
    ensures forall q | 0 <= q < |ord| :: scale[ord[q]] == Grade(q, |ord|)
    ensures forall i | 0 <= i < len && i !in ord :: scale[i] == 0.0
  {
    var k := |ord|;
    scale := seq(len, _ => 0.0);
    for p := 0 to k
      invariant |scale| == len
      invariant forall q | 0 <= q < p :: scale[ord[q]] == Grade(q, k)
      invariant forall i | 0 <= i < len && i !in ord[..p] :: scale[i] == 0.0
    {
      scale := scale[ord[p] := Grade(p, k)];
    }
    assert ord[..k] == ord;
  }

  /**
    `get_sorted_idx(items, filter, len)`. The output has `len` entries;
    `len` must exceed every kept index, as the source writes `scale[i]` for
    each kept item `i`. With exactly one kept item the source divides 0 by 0
    (a NaN in `f32`), so that case is excluded.
   */
  method SortedIdx(items: seq<real>, keep: real -> bool, len: nat) returns (scale: seq<real>)
    requires forall i | 0 <= i < |items| && keep(items[i]) :: i < len
    requires Count(items, keep) != 1
    ensures |scale| == len
    ensures forall i | 0 <= i < len :: scale[i] == ExpectedRank(items, keep, i)
  {
    var kept := KeptIndices(items, keep);
    var ord := Sort(items, kept);
    var sorted := RankWitness(items, keep);
    assert Distinct(ord) by {
      forall p, q | 0 <= p < q < |ord|
        ensures ord[p] != ord[q]
      {
        assert Precedes(items, ord[p], ord[q]);
      }
    }
    forall q | 0 <= q < |ord|
      ensures ord[q] < len
    {
      assert ord[q] in sorted;
    }
    scale := Scatter(ord, len);
    forall i | 0 <= i < len
      ensures scale[i] == ExpectedRank(items, keep, i)
    {
      if i < |items| && keep(items[i]) {
        var p :| 0 <= p < |ord| && ord[p] == i;
      }
    }
  }

  /** Every rank lies in [0, 1]; excluded entries are 0. */
  lemma RankInUnitRange(items: seq<real>, keep: real -> bool, i: nat)
    requires Count(items, keep) != 1
    ensures 0.0 <= ExpectedRank(items, keep, i) <= 1.0
    ensures !(i < |items| && keep(items[i])) ==> ExpectedRank(items, keep, i) == 0.0
  {
    if i < |items| && keep(items[i]) {
      var ord := RankWitness(items, keep);
      var p :| 0 <= p < |ord| && ord[p] == i;
      GradeBounds(p, |ord|);
    }
  }

  /** The values written at the kept entries. */
  ghost function KeptValues(items: seq<real>, keep: real -> bool): set<real>
    requires Count(items, keep) != 1
  {
    set i | 0 <= i < |items| && keep(items[i]) :: ExpectedRank(items, keep, i)
  }

  /** The grid points `p / (k - 1)` for `p` in `0 .. k - 1`. */
  ghost function GradeSet(k: nat): set<real>
    requires k != 1
  {
    set p | 0 <= p < k :: Grade(p, k)
  }

  /**
    With at least two kept entries, the kept entries receive exactly the
    values `p / (k - 1)` for `p` in `0 .. k - 1`, each one exactly once.
   */
  lemma RankValuesExact(items: seq<real>, keep: real -> bool)
    requires Count(items, keep) >= 2
    ensures KeptValues(items, keep) == GradeSet(Count(items, keep))
    ensures forall i, j | 0 <= i < |items| && 0 <= j < |items| && keep(items[i]) && keep(items[j]) && i != j ::
              ExpectedRank(items, keep, i) != ExpectedRank(items, keep, j)
  {
    var ord := RankWitness(items, keep);
    RankValuesCover(items, keep, ord);
    RankValuesWithin(items, keep, ord);
    RankValuesDistinct(items, keep, ord);
  }

  lemma RankValuesCover(items: seq<real>, keep: real -> bool, ord: seq<nat>)
    requires Count(items, keep) >= 2
    requires SortedBy(items, ord) && |ord| == Count(items, keep)
    requires forall i | 0 <= i < |items| :: keep(items[i]) <==> i in ord
    requires forall p | 0 <= p < |ord| :: RankOf(items, keep, ord[p]) == p
    ensures GradeSet(Count(items, keep)) <= KeptValues(items, keep)
  {
    var k := Count(items, keep);
    forall v | v in GradeSet(k)
      ensures v in KeptValues(items, keep)
    {
      var p :| 0 <= p < k && v == Grade(p, k);
      assert ExpectedRank(items, keep, ord[p]) == v;
    }
  }

  lemma RankValuesWithin(items: seq<real>, keep: real -> bool, ord: seq<nat>)
    requires Count(items, keep) >= 2
    requires SortedBy(items, ord) && |ord| == Count(items, keep)
    requires forall i | 0 <= i < |items| :: keep(items[i]) <==> i in ord
    requires forall p | 0 <= p < |ord| :: RankOf(items, keep, ord[p]) == p
    ensures KeptValues(items, keep) <= GradeSet(Count(items, keep))
  {
    var k := Count(items, keep);
    forall v | v in KeptValues(items, keep)
      ensures v in GradeSet(k)
    {
      var i :| 0 <= i < |items| && keep(items[i]) && v == ExpectedRank(items, keep, i);
      var p :| 0 <= p < k && ord[p] == i;
    }
  }

  lemma RankValuesDistinct(items: seq<real>, keep: real -> bool, ord: seq<nat>)
    requires Count(items, keep) >= 2
    requires SortedBy(items, ord) && |ord| == Count(items, keep)
    requires forall i | 0 <= i < |items| :: keep(items[i]) <==> i in ord
    requires forall p | 0 <= p < |ord| :: RankOf(items, keep, ord[p]) == p
    ensures forall i, j | 0 <= i < |items| && 0 <= j < |items| && keep(items[i]) && keep(items[j]) && i != j ::
              ExpectedRank(items, keep, i) != ExpectedRank(items, keep, j)
  {
    forall i, j | 0 <= i < |items| && 0 <= j < |items| && keep(items[i]) && keep(items[j]) && i != j
      ensures ExpectedRank(items, keep, i) != ExpectedRank(items, keep, j)
    {
      var p :| 0 <= p < |ord| && ord[p] == i;
      var q :| 0 <= q < |ord| && ord[q] == j;
      GradesDiffer(items, keep, i, j, p, q);
    }
  }

  lemma GradesDiffer(items: seq<real>, keep: real -> bool, i: nat, j: nat, p: nat, q: nat)
    requires Count(items, keep) >= 2
    requires i < |items| && j < |items| && keep(items[i]) && keep(items[j])
    requires p < Count(items, keep) && q < Count(items, keep) && p != q
    requires RankOf(items, keep, i) == p && RankOf(items, keep, j) == q
    ensures ExpectedRank(items, keep, i) != ExpectedRank(items, keep, j)
  {
    var k := Count(items, keep);
    if p < q {
      GradeStrictlyIncreasing(p, q, k);
    } else {
      GradeStrictlyIncreasing(q, p, k);
    }
  }

  /**
    Ranking is strictly monotone in the sort order: a smaller value gets a
    smaller rank, and equal values are ranked by original index.
   */
  lemma RankMonotone(items: seq<real>, keep: real -> bool, i: nat, j: nat)
    requires Count(items, keep) != 1
    requires i < |items| && j < |items| && keep(items[i]) && keep(items[j])
    requires items[i] < items[j] || (items[i] == items[j] && i < j)
    ensures RankOf(items, keep, i) < RankOf(items, keep, j)
    ensures ExpectedRank(items, keep, i) < ExpectedRank(items, keep, j)
  {
    var ord := RankWitness(items, keep);
    var p :| 0 <= p < |ord| && ord[p] == i;
    var q :| 0 <= q < |ord| && ord[q] == j;
    SortedPositionOrder(items, ord, p, q);
    GradeStrictlyIncreasing(p, q, |ord|);
  }

  /** In a sorted list, an entry that precedes another sits at an earlier position. */
  lemma SortedPositionOrder(items: seq<real>, ord: seq<nat>, p: nat, q: nat)
    requires SortedBy(items, ord) && p < |ord| && q < |ord|
    requires Precedes(items, ord[p], ord[q])
    ensures p < q
  {
    PrecedesAsymmetric(items, ord[p], ord[q]);
  }

  /** `Precedes` is a strict order: irreflexive and asymmetric. */
  lemma PrecedesAsymmetric(items: seq<real>, a: nat, b: nat)
    requires a < |items| && b < |items|
    ensures !Precedes(items, a, a)
    ensures Precedes(items, a, b) ==> !Precedes(items, b, a)
  {
  }

  /**
    Ranks depend only on how the entries compare: two fields of the same
    length that order every pair of entries alike, with the same entries
    kept, get identical ranks (for instance a field and its image under a
    strictly increasing map).
   */
  lemma RankOrderInvariant(items1: seq<real>, keep1: real -> bool, items2: seq<real>, keep2: real -> bool, i: nat)
    requires |items1| == |items2|
    requires forall a, b | 0 <= a < |items1| && 0 <= b < |items1| :: items1[a] < items1[b] <==> items2[a] < items2[b]
    requires forall a | 0 <= a < |items1| :: keep1(items1[a]) == keep2(items2[a])
    requires i < |items1|
    ensures RankOf(items1, keep1, i) == RankOf(items2, keep2, i)
  {
    var s1 := set j | 0 <= j < |items1| && keep1(items1[j]) && Precedes(items1, j, i);
    var s2 := set j | 0 <= j < |items2| && keep2(items2[j]) && Precedes(items2, j, i);
    forall j | 0 <= j < |items1|
      ensures Precedes(items1, j, i) == Precedes(items2, j, i)
    {
      assert items1[j] == items1[i] <==> items2[j] == items2[i];
    }
    assert s1 == s2;
  }
}
