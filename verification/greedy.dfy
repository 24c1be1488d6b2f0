/**
 The greedy robber: rank the jewels by price per unit of volume, highest
 first, keeping jewels of equal rank in their input order, then walk the
 ranked jewels once and add each one that still fits.
 */
module GreedyRobber {
  import opened Jewels
  import opened Bags

  /** The key `price / volume` as double division gives it for a whole,
      non-negative price and volume: the exact ratio when the volume is
      positive (rounding is not modelled), positive infinity for a priced
      jewel of no volume, and not-a-number for 0 / 0. */
  datatype OptimumIndex = NotANumber | Finite(ratio: real) | PositiveInfinity

  /** Ordering tier of a key under the default comparison of doubles:
      not-a-number below every number, infinity above every finite value. */
  function Tier(k: OptimumIndex): nat
  {
    match k
    case NotANumber => 0
    case Finite(_) => 1
    case PositiveInfinity => 2
  }

  /** `a` compares strictly greater than `b`. */
  predicate Greater(a: OptimumIndex, b: OptimumIndex)
  {
    if a.Finite? && b.Finite? then a.ratio > b.ratio else Tier(a) > Tier(b)
  }

  /** `a` compares greater than or equal to `b`. */
  predicate AtLeast(a: OptimumIndex, b: OptimumIndex)
  {
    !Greater(b, a)
  }

  /** The ranking key of a jewel: its price per unit of volume. */
  function OptimumIndexOfJewel(j: Jewel): (k: OptimumIndex)
    ensures j.volume > 0 ==> k.Finite? && k.ratio * (j.volume as real) == j.price as real
    ensures j.volume == 0 && j.price > 0 ==> k == PositiveInfinity
    ensures j.volume == 0 && j.price == 0 ==> k == NotANumber
  {
    if j.volume > 0 then Finite(j.price as real / j.volume as real)
    else if j.price > 0 then PositiveInfinity
    else NotANumber
  }

  /** For jewels that take up room, ranking by the ratio agrees with
      comparing the cross products of prices and volumes. */
  lemma OptimumIndexIsCrossMultiplication(a: Jewel, b: Jewel)
    requires a.volume > 0 && b.volume > 0
    ensures Greater(OptimumIndexOfJewel(a), OptimumIndexOfJewel(b))
        <==> a.price * b.volume > b.price * a.volume
  {
  }

  /** `s` is ranked: every jewel's key is at least that of every later one. */
  predicate NonIncreasing(s: seq<Jewel>)
  {
    forall i, k :: 0 <= i < k < |s| ==> AtLeast(OptimumIndexOfJewel(s[i]), OptimumIndexOfJewel(s[k]))
  }

  /** The jewels of `s` whose key is `k`, in the order of `s`. */
  function WithKey(s: seq<Jewel>, k: OptimumIndex): (r: seq<Jewel>)
    ensures IsSubsequence(r, s)
  {
    if s == [] then []
    else if OptimumIndexOfJewel(s[0]) == k then [s[0]] + WithKey(s[1..], k)
    else WithKey(s[1..], k)
  }

  /** Puts `j` into the ranked `s` just before the first jewel whose key is
      not strictly greater, so `j` precedes the jewels of equal key. */
  function Insert(j: Jewel, s: seq<Jewel>): (r: seq<Jewel>)
    ensures multiset(r) == multiset(s) + multiset{j}
    ensures |r| == |s| + 1
  {
    if s != [] && Greater(OptimumIndexOfJewel(s[0]), OptimumIndexOfJewel(j)) then
      assert s == [s[0]] + s[1..];
      [s[0]] + Insert(j, s[1..])
    else
      [j] + s
  }

  /** Inserting into a ranked sequence keeps it ranked. */
  lemma {:induction false} InsertKeepsRanking(j: Jewel, s: seq<Jewel>)
    requires NonIncreasing(s)
    ensures NonIncreasing(Insert(j, s))
  {
    var r := Insert(j, s);
    if s != [] && Greater(OptimumIndexOfJewel(s[0]), OptimumIndexOfJewel(j)) {
      var rest := Insert(j, s[1..]);
      InsertKeepsRanking(j, s[1..]);
      assert r == [s[0]] + rest;
      forall k | 0 < k < |r|
        ensures AtLeast(OptimumIndexOfJewel(s[0]), OptimumIndexOfJewel(r[k]))
      {
        assert r[k] == rest[k - 1];
        assert rest[k - 1] in multiset(rest);
        if rest[k - 1] != j {
          assert rest[k - 1] in multiset(s[1..]);
          var m :| 0 <= m < |s[1..]| && s[1..][m] == rest[k - 1];
          assert s[m + 1] == r[k];
        }
      }
    } else if s != [] {
      var r := [j] + s;
      forall k | 0 < k < |r|
        ensures AtLeast(OptimumIndexOfJewel(j), OptimumIndexOfJewel(r[k]))
      {
        assert r[k] == s[k - 1];
        assert AtLeast(OptimumIndexOfJewel(s[0]), OptimumIndexOfJewel(s[k - 1]));
      }
    }
  }

  /** Inserting puts `j` ahead of every jewel of `s` with the same key and
      leaves the other key classes as they were. */
  lemma {:induction false} InsertIsStable(j: Jewel, s: seq<Jewel>, k: OptimumIndex)
    ensures WithKey(Insert(j, s), k) == (if OptimumIndexOfJewel(j) == k then [j] else []) + WithKey(s, k)
  {
    if s != [] && Greater(OptimumIndexOfJewel(s[0]), OptimumIndexOfJewel(j)) {
      var rest := Insert(j, s[1..]);
      InsertIsStable(j, s[1..], k);
      assert ([s[0]] + rest)[1..] == rest;
      assert OptimumIndexOfJewel(j) == k ==> OptimumIndexOfJewel(s[0]) != k;
    } else {
      assert ([j] + s)[1..] == s;
    }
  }

  /** The ranking: a stable sort of `js` by key, highest key first. */
  function SortByOptimumIndex(js: seq<Jewel>): (r: seq<Jewel>)
    ensures multiset(r) == multiset(js)
  {
    if js == [] then []
    else
      assert js == [js[0]] + js[1..];
      Insert(js[0], SortByOptimumIndex(js[1..]))
  }

  /** The ranking holds the input's jewels, highest key first, and jewels of
      equal key appear in the order the input gives them. */
  lemma {:induction false} SortIsStableRanking(js: seq<Jewel>)
    ensures multiset(SortByOptimumIndex(js)) == multiset(js)
    ensures NonIncreasing(SortByOptimumIndex(js))
    ensures forall k :: WithKey(SortByOptimumIndex(js), k) == WithKey(js, k)
  {
    if js != [] {
      var rest := SortByOptimumIndex(js[1..]);
      SortIsStableRanking(js[1..]);
      InsertKeepsRanking(js[0], rest);
      forall k
        ensures WithKey(SortByOptimumIndex(js), k) == WithKey(js, k)
      {
        InsertIsStable(js[0], rest, k);
      }
    }
  }

  /** One pass over `sorted`: each jewel that fits the bag at its turn is
      added, the others are skipped and never retried. */
  function AddWhileFitting(bag: Bag, sorted: seq<Jewel>): (r: Bag)
    ensures r.maxVolume == bag.maxVolume
    ensures |bag.jewels| <= |r.jewels| && r.jewels[..|bag.jewels|] == bag.jewels
    ensures IsSubsequence(r.jewels[|bag.jewels|..], sorted)
    ensures r.volumeInside == bag.volumeInside + TotalVolume(r.jewels[|bag.jewels|..])
    ensures Accounted(bag) ==> Accounted(r)
    ensures Invariant(bag) ==> Invariant(r)
    ensures forall j | j in multiset(sorted) - multiset(r.jewels[|bag.jewels|..]) :: !DoesJewelFit(r, j)
    decreases |sorted|
  {
    if sorted == [] then bag
    else
      var j := sorted[0];
      var next := if DoesJewelFit(bag, j) then AddJewel(bag, j).bag else bag;
      var r := AddWhileFitting(next, sorted[1..]);
      assert sorted == [j] + sorted[1..];
      AddedSplit(bag, next, r);
      r
  }

  /** Bookkeeping for one step of the pass: what was added from `bag` to `r`
      is what was added from `bag` to `next` followed by what was added from
      `next` to `r`. */
  lemma AddedSplit(bag: Bag, next: Bag, r: Bag)
    requires |bag.jewels| <= |next.jewels| <= |r.jewels|
    requires next.jewels[..|bag.jewels|] == bag.jewels && r.jewels[..|next.jewels|] == next.jewels
    ensures r.jewels[..|bag.jewels|] == bag.jewels
    ensures r.jewels[|bag.jewels|..] == next.jewels[|bag.jewels|..] + r.jewels[|next.jewels|..]
  {
  }

  /** The pass is a left-to-right fold: extending the ranked jewels by `j`
      adds `j` to the bag the shorter pass left exactly when it fits there,
      and otherwise leaves that bag alone. */
  lemma {:induction false} AddWhileFittingStep(bag: Bag, s: seq<Jewel>, j: Jewel)
    ensures AddWhileFitting(bag, s + [j])
         == (var m := AddWhileFitting(bag, s); if DoesJewelFit(m, j) then AddJewel(m, j).bag else m)
    decreases |s|
  {
    if s == [] {
      assert s + [j] == [j];
    } else {
      var next := if DoesJewelFit(bag, s[0]) then AddJewel(bag, s[0]).bag else bag;
      assert (s + [j])[0] == s[0] && (s + [j])[1..] == s[1..] + [j];
      AddWhileFittingStep(next, s[1..], j);
    }
  }

  /** An order-preserving selection from a ranked sequence is ranked. */
  lemma {:induction false} SubsequenceKeepsRanking(a: seq<Jewel>, b: seq<Jewel>)
    requires IsSubsequence(a, b) && NonIncreasing(b)
    ensures NonIncreasing(a)
    decreases |b|
  {
    if a != [] {
      assert NonIncreasing(b[1..]) by {
        forall i, k | 0 <= i < k < |b[1..]|
          ensures AtLeast(OptimumIndexOfJewel(b[1..][i]), OptimumIndexOfJewel(b[1..][k]))
        {
          assert b[1..][i] == b[i + 1] && b[1..][k] == b[k + 1];
        }
      }
      if a[0] == b[0] && IsSubsequence(a[1..], b[1..]) {
        SubsequenceKeepsRanking(a[1..], b[1..]);
        SubsequenceIsSubmultiset(a[1..], b[1..]);
        forall k | 0 < k < |a|
          ensures AtLeast(OptimumIndexOfJewel(a[0]), OptimumIndexOfJewel(a[k]))
        {
          assert a[k] == a[1..][k - 1];
          assert a[k] in multiset(b[1..]);
          var m :| 0 <= m < |b[1..]| && b[1..][m] == a[k];
          assert b[m + 1] == a[k];
        }
      } else {
        SubsequenceKeepsRanking(a, b[1..]);
      }
    }
  }

  /** The greedy robber's fill of `bag` with `js`: the jewels are ranked and
      then added in one pass, each only if it fits at its turn. */
  function FillBagWithJewels(bag: Bag, js: seq<Jewel>): (r: Bag)
    ensures r.maxVolume == bag.maxVolume
    ensures |bag.jewels| <= |r.jewels| && r.jewels[..|bag.jewels|] == bag.jewels
    ensures Invariant(bag) ==> Invariant(r)
    ensures multiset(r.jewels[|bag.jewels|..]) <= multiset(js)
    ensures IsSubsequence(r.jewels[|bag.jewels|..], SortByOptimumIndex(js))
    ensures NonIncreasing(r.jewels[|bag.jewels|..])
    ensures forall j | j in multiset(js) - multiset(r.jewels[|bag.jewels|..]) :: !DoesJewelFit(r, j)
  {
    var sorted := SortByOptimumIndex(js);
    var r := AddWhileFitting(bag, sorted);
    SortIsStableRanking(js);
    SubsequenceIsSubmultiset(r.jewels[|bag.jewels|..], sorted);
    SubsequenceKeepsRanking(r.jewels[|bag.jewels|..], sorted);
    r
  }

  /** The greedy robber takes each ranked jewel that still fits when the pass
      reaches it: the `k`-th ranked jewel is added to the bag built from the
      jewels ranked before it exactly when it fits that bag, and the fill is
      the bag built from all ranked jewels. */
  lemma GreedyTakesEachJewelThatFits(bag: Bag, js: seq<Jewel>)
    ensures var sorted := SortByOptimumIndex(js);
      && FillBagWithJewels(bag, js) == AddWhileFitting(bag, sorted[..|sorted|])
      && forall k | 0 <= k < |sorted| ::
           AddWhileFitting(bag, sorted[..k + 1])
           == (var m := AddWhileFitting(bag, sorted[..k]);
               if DoesJewelFit(m, sorted[k]) then AddJewel(m, sorted[k]).bag else m)
  {
    var sorted := SortByOptimumIndex(js);
    assert sorted[..|sorted|] == sorted;
    forall k | 0 <= k < |sorted|
      ensures AddWhileFitting(bag, sorted[..k + 1])
           == (var m := AddWhileFitting(bag, sorted[..k]);
               if DoesJewelFit(m, sorted[k]) then AddJewel(m, sorted[k]).bag else m)
    {
      assert sorted[..k + 1] == sorted[..k] + [sorted[k]];
      AddWhileFittingStep(bag, sorted[..k], sorted[k]);
    }
  }
}
