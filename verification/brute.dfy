/**
 The brute-force robber: a recursive include/exclude search over the jewels
 in input order that keeps the selection of highest total price, then adds
 that selection to the bag in one batch.
 */
module BruteRobber {
  import opened Jewels
  import opened Bags

  /** The search as the program writes it. At index `i`, with `remaining`
      volume left and `current` chosen so far: stop when the jewels are
      exhausted or no volume remains; otherwise explore leaving jewel `i`
      out, then, if it fits, taking it, and prefer the second only when its
      total price is strictly higher. */
  function GetBestPriceBruteForce(js: seq<Jewel>, i: nat, remaining: int, current: seq<Jewel>): (r: seq<Jewel>)
    requires i <= |js|
    ensures |current| <= |r| && r[..|current|] == current
    ensures IsSubsequence(r[|current|..], js[i..])
    ensures remaining >= 0 ==> TotalVolume(r[|current|..]) <= remaining
    ensures i == |js| || remaining <= 0 ==> r == current
    decreases |js| - i
  {
    if i >= |js| || remaining <= 0 then current
    else
      var jewel := js[i];
      var skip := GetBestPriceBruteForce(js, i + 1, remaining, current);
      if jewel.volume <= remaining then
        var take := GetBestPriceBruteForce(js, i + 1, remaining - jewel.volume, current + [jewel]);
        TakeBranchShape(js, i, remaining, current, take);
        if TotalPrice(take) > TotalPrice(skip) then take else skip
      else
        SkipBranchShape(js, i, current, skip);
        skip
  }

  /** The search with the `remaining <= 0` cut-off removed: it stops only when
      the jewels are exhausted, so jewels of no volume are still considered
      when the bag is full. */
  function GetBestPriceFullSearch(js: seq<Jewel>, i: nat, remaining: int, current: seq<Jewel>): (r: seq<Jewel>)
    requires i <= |js|
    ensures |current| <= |r| && r[..|current|] == current
    ensures IsSubsequence(r[|current|..], js[i..])
    ensures remaining >= 0 ==> TotalVolume(r[|current|..]) <= remaining
    ensures remaining < 0 ==> r == current
    decreases |js| - i
  {
    if i >= |js| then current
    else
      var jewel := js[i];
      var skip := GetBestPriceFullSearch(js, i + 1, remaining, current);
      if jewel.volume <= remaining then
        var take := GetBestPriceFullSearch(js, i + 1, remaining - jewel.volume, current + [jewel]);
        TakeBranchShape(js, i, remaining, current, take);
        if TotalPrice(take) > TotalPrice(skip) then take else skip
      else
        SkipBranchShape(js, i, current, skip);
        skip
  }

  /** Shape of the include branch's result, seen from the caller's `current`. */
  lemma TakeBranchShape(js: seq<Jewel>, i: nat, remaining: int, current: seq<Jewel>, take: seq<Jewel>)
    requires i < |js| && js[i].volume <= remaining
    requires |current + [js[i]]| <= |take| && take[..|current + [js[i]]|] == current + [js[i]]
    requires IsSubsequence(take[|current + [js[i]]|..], js[i + 1..])
    requires TotalVolume(take[|current + [js[i]]|..]) <= remaining - js[i].volume
    ensures |current| <= |take| && take[..|current|] == current
    ensures IsSubsequence(take[|current|..], js[i..])
    ensures TotalVolume(take[|current|..]) <= remaining
  {
  }

  /** Shape of the exclude branch's result, seen from the caller's `current`. */
  lemma SkipBranchShape(js: seq<Jewel>, i: nat, current: seq<Jewel>, skip: seq<Jewel>)
    requires i < |js|
    requires |current| <= |skip| && IsSubsequence(skip[|current|..], js[i + 1..])
    ensures IsSubsequence(skip[|current|..], js[i..])
  {
  }

  /** One unfolding of the full search: its result is worth at least the
      exclude branch and, when the jewel fits, the include branch. */
  lemma FullSearchBeatsBranches(js: seq<Jewel>, i: nat, remaining: int, current: seq<Jewel>)
    requires i < |js|
    ensures TotalPrice(GetBestPriceFullSearch(js, i + 1, remaining, current))
         <= TotalPrice(GetBestPriceFullSearch(js, i, remaining, current))
    ensures js[i].volume <= remaining ==>
      TotalPrice(GetBestPriceFullSearch(js, i + 1, remaining - js[i].volume, current + [js[i]]))
      <= TotalPrice(GetBestPriceFullSearch(js, i, remaining, current))
  {
  }

  /** A selection from `[x] + rest` either uses `x`, and what is left of it
      is a selection from `rest`, or is itself a selection from `rest`. */
  lemma SelectionFromCons(x: Jewel, rest: seq<Jewel>, s: seq<Jewel>)
    requires multiset(s) <= multiset([x] + rest)
    ensures x in s ==> multiset(RemoveOne(s, x)) <= multiset(rest)
    ensures x !in s ==> multiset(s) <= multiset(rest)
  {
    if x in s {
      RemoveOneSums(s, x);
    } else {
      forall y | y in multiset(s)
        ensures multiset(s)[y] <= multiset(rest)[y]
      {
        assert y != x;
      }
    }
  }

  /** Every selection of jewels from `js[i..]` that fits in `remaining` is
      worth at most what the full search adds to `current`. */
  lemma {:induction false} FullSearchIsOptimal(js: seq<Jewel>, i: nat, remaining: int, current: seq<Jewel>, s: seq<Jewel>)
    requires i <= |js|
    requires multiset(s) <= multiset(js[i..])
    requires TotalVolume(s) <= remaining
    ensures TotalPrice(current) + TotalPrice(s) <= TotalPrice(GetBestPriceFullSearch(js, i, remaining, current))
    decreases |js| - i
  {
    if i == |js| {
      assert js[i..] == [];
      assert |s| == |multiset(s)| == 0;
    } else {
      var x := js[i];
      assert js[i..] == [x] + js[i + 1..];
      SelectionFromCons(x, js[i + 1..], s);
      FullSearchBeatsBranches(js, i, remaining, current);
      if x in s {
        var rest := RemoveOne(s, x);
        RemoveOneSums(s, x);
        FullSearchIsOptimal(js, i + 1, remaining - x.volume, current + [x], rest);
        TotalPriceAppend(current, [x]);
      } else {
        FullSearchIsOptimal(js, i + 1, remaining, current, s);
      }
    }
  }

  /** When every jewel takes up room, the cut-off changes nothing: the search
      as written and the full search choose the same jewels. */
  lemma {:induction false} CutoffIsHarmlessWhenJewelsTakeRoom(js: seq<Jewel>, i: nat, remaining: int, current: seq<Jewel>)
    requires i <= |js| && AllTakeRoom(js)
    ensures GetBestPriceBruteForce(js, i, remaining, current) == GetBestPriceFullSearch(js, i, remaining, current)
    decreases |js| - i
  {
    if i < |js| {
      CutoffIsHarmlessWhenJewelsTakeRoom(js, i + 1, remaining, current);
      if js[i].volume <= remaining {
        CutoffIsHarmlessWhenJewelsTakeRoom(js, i + 1, remaining - js[i].volume, current + [js[i]]);
      }
    }
  }

  /** The search as written is optimal when every jewel takes up room: no
      selection of the jewels that fits the capacity is worth more. */
  lemma BruteForceIsOptimal(js: seq<Jewel>, capacity: int, s: seq<Jewel>)
    requires AllTakeRoom(js)
    requires multiset(s) <= multiset(js) && TotalVolume(s) <= capacity
    ensures TotalPrice(s) <= TotalPrice(GetBestPriceBruteForce(js, 0, capacity, []))
  {
    assert js[0..] == js;
    CutoffIsHarmlessWhenJewelsTakeRoom(js, 0, capacity, []);
    FullSearchIsOptimal(js, 0, capacity, [], s);
  }

  /** With a jewel of no volume the search as written is not optimal: once
      the first jewel fills the bag, the free jewel after it is never
      considered, so both jewels together (worth 6) lose to the free jewel
      alone (worth 5); the full search takes both. */
  lemma ZeroVolumeJewelIsLeftBehind()
    ensures var js := [Jewel(1, 1), Jewel(0, 5)];
      && TotalVolume(js) <= 1
      && GetBestPriceBruteForce(js, 0, 1, []) == [Jewel(0, 5)]
      && TotalPrice(GetBestPriceBruteForce(js, 0, 1, [])) < TotalPrice(js)
      && GetBestPriceFullSearch(js, 0, 1, []) == js
  {
  }

  /** Every jewel in `s` is worth something. */
  predicate AllPriced(s: seq<Jewel>)
  {
    forall k :: 0 <= k < |s| ==> s[k].price > 0
  }

  /** One unfolding of the full search: it returns one of its two branches,
      and the include branch only when it fits and is worth strictly more. */
  lemma FullSearchPicksBranch(js: seq<Jewel>, i: nat, remaining: int, current: seq<Jewel>)
    requires i < |js|
    ensures var r := GetBestPriceFullSearch(js, i, remaining, current);
      var skip := GetBestPriceFullSearch(js, i + 1, remaining, current);
      if js[i].volume <= remaining then
        var take := GetBestPriceFullSearch(js, i + 1, remaining - js[i].volume, current + [js[i]]);
        r == (if TotalPrice(take) > TotalPrice(skip) then take else skip)
      else r == skip
  {
  }

  /** Because taking a jewel must be strictly better than leaving it, the
      full search never takes a worthless jewel. */
  lemma {:induction false} FullSearchLeavesWorthlessJewels(js: seq<Jewel>, i: nat, remaining: int, current: seq<Jewel>)
    requires i <= |js|
    ensures var r := GetBestPriceFullSearch(js, i, remaining, current); AllPriced(r[|current|..])
    decreases |js| - i
  {
    var r := GetBestPriceFullSearch(js, i, remaining, current);
    if i == |js| {
      assert r[|current|..] == [];
    } else {
      var x := js[i];
      var skip := GetBestPriceFullSearch(js, i + 1, remaining, current);
      FullSearchLeavesWorthlessJewels(js, i + 1, remaining, current);
      FullSearchPicksBranch(js, i, remaining, current);
      if x.volume <= remaining {
        var cx := current + [x];
        var take := GetBestPriceFullSearch(js, i + 1, remaining - x.volume, cx);
        FullSearchLeavesWorthlessJewels(js, i + 1, remaining - x.volume, cx);
        var tail := take[|cx|..];
        assert take == cx + tail;
        if x.price == 0 {
          SubsequenceIsSubmultiset(tail, js[i + 1..]);
          FullSearchIsOptimal(js, i + 1, remaining, current, tail);
          TotalPriceAppend(cx, tail);
          TotalPriceAppend(current, [x]);
          assert r == skip;
        } else if r == take {
          assert take[|current|..] == [x] + tail;
        }
      }
    }
  }

  /** The search as written never takes a worthless jewel when every jewel
      takes up room: ties go to leaving the jewel out. */
  lemma BruteForceLeavesWorthlessJewels(js: seq<Jewel>, capacity: int)
    requires AllTakeRoom(js)
    ensures AllPriced(GetBestPriceBruteForce(js, 0, capacity, []))
  {
    CutoffIsHarmlessWhenJewelsTakeRoom(js, 0, capacity, []);
    FullSearchLeavesWorthlessJewels(js, 0, capacity, []);
    var r := GetBestPriceBruteForce(js, 0, capacity, []);
    assert r[0..] == r;
  }

  /** The brute-force robber's fill as written: the search plans for the
      bag's whole maximum volume and the plan is added as one batch. */
  function FillBagWithJewels(bag: Bag, js: seq<Jewel>): (r: AddResult)
    ensures r.Added? ==> r.bag.maxVolume == bag.maxVolume
    ensures r.Added? ==> r.bag.jewels == bag.jewels + GetBestPriceBruteForce(js, 0, bag.maxVolume, [])
    ensures Invariant(bag) && bag.jewels == [] ==> r.Added? && Invariant(r.bag)
    ensures Accounted(bag) && bag.maxVolume < 0 ==> r.Rejected?
  {
    var best := GetBestPriceBruteForce(js, 0, bag.maxVolume, []);
    assert best[0..] == best;
    AddJewels(bag, best)
  }

  /** Planning for the whole maximum volume ignores what is already in the
      bag: a bag holding a jewel that fills it makes the batch add fail. */
  lemma FillPlansWithoutTheBagsContents()
    ensures var bag := AddJewel(NewBag(5), Jewel(5, 1));
      && bag.Added?
      && Invariant(bag.bag)
      && FillBagWithJewels(bag.bag, [Jewel(1, 1)]).Rejected?
  {
  }

  /** The brute-force fill planned for the room left in the bag, using the
      full search. */
  function FillRemainingRoom(bag: Bag, js: seq<Jewel>): (r: AddResult)
    ensures r.Added? ==> r.bag.maxVolume == bag.maxVolume
    ensures r.Added? ==> r.bag.jewels == bag.jewels + GetBestPriceFullSearch(js, 0, bag.maxVolume - bag.volumeInside, [])
    ensures Invariant(bag) ==> r.Added? && Invariant(r.bag)
  {
    var best := GetBestPriceFullSearch(js, 0, bag.maxVolume - bag.volumeInside, []);
    assert best[0..] == best;
    TotalVolumeAppend(bag.jewels, best);
    AddJewels(bag, best)
  }

  /** No other choice of jewels from `js` that fits in the room left in the
      bag leaves it worth more than the corrected fill does. */
  lemma FillRemainingRoomIsOptimal(bag: Bag, js: seq<Jewel>, s: seq<Jewel>)
    requires Invariant(bag)
    requires multiset(s) <= multiset(js) && TotalVolume(bag.jewels + s) <= bag.maxVolume
    ensures TotalPrice(bag.jewels + s) <= TotalPrice(FillRemainingRoom(bag, js).bag.jewels)
  {
    var room := bag.maxVolume - bag.volumeInside;
    var best := GetBestPriceFullSearch(js, 0, room, []);
    var r := FillRemainingRoom(bag, js);
    assert r.Added? && r.bag.jewels == bag.jewels + best;
    assert js[0..] == js;
    TotalVolumeAppend(bag.jewels, s);
    assert TotalVolume(s) <= room;
    FullSearchIsOptimal(js, 0, room, [], s);
    assert TotalPrice(s) <= TotalPrice(best);
    TotalPriceAppend(bag.jewels, s);
    TotalPriceAppend(bag.jewels, best);
  }

  /** On a new bag of non-negative capacity, and with jewels that take up
      room, the corrected fill and the fill as written agree. */
  lemma FillsAgreeOnNewBag(capacity: int, js: seq<Jewel>)
    requires capacity >= 0 && AllTakeRoom(js)
    ensures FillRemainingRoom(NewBag(capacity), js) == FillBagWithJewels(NewBag(capacity), js)
  {
    CutoffIsHarmlessWhenJewelsTakeRoom(js, 0, capacity, []);
  }
}
