/**
 The two robbers side by side. Whatever the greedy robber puts in a valid
 bag, the brute-force fill planned for the room left, without the cut-off on
 a full bag, is worth at least as much, and sometimes strictly more. The
 brute-force robber as written keeps that promise on new bags whose jewels
 all take up room; a jewel of no volume can make it lose to the greedy robber.
 */
module Robbers {
  import opened Jewels
  import opened Bags
  import GreedyRobber
  import BruteRobber

  /** On any bag that keeps its invariant, the greedy fill is worth no more
      than the brute-force fill planned for the room left in the bag. */
  lemma GreedyNeverBeatsFullSearch(bag: Bag, js: seq<Jewel>)
    requires Invariant(bag)
    ensures BruteRobber.FillRemainingRoom(bag, js).Added?
    ensures TotalPrice(GreedyRobber.FillBagWithJewels(bag, js).jewels)
         <= TotalPrice(BruteRobber.FillRemainingRoom(bag, js).bag.jewels)
  {
    var g := GreedyRobber.FillBagWithJewels(bag, js);
    var added := g.jewels[|bag.jewels|..];
    assert g.jewels == bag.jewels + added;
    BruteRobber.FillRemainingRoomIsOptimal(bag, js, added);
  }

  /** On a new bag, with jewels that take up room, the brute-force robber as
      written never fails to add its selection, and the greedy robber never
      ends up with more. */
  lemma GreedyNeverBeatsBruteForce(capacity: int, js: seq<Jewel>)
    requires capacity >= 0 && AllTakeRoom(js)
    ensures BruteRobber.FillBagWithJewels(NewBag(capacity), js).Added?
    ensures TotalPrice(GreedyRobber.FillBagWithJewels(NewBag(capacity), js).jewels)
         <= TotalPrice(BruteRobber.FillBagWithJewels(NewBag(capacity), js).bag.jewels)
  {
    GreedyNeverBeatsFullSearch(NewBag(capacity), js);
    BruteRobber.FillsAgreeOnNewBag(capacity, js);
  }

  /** The greedy robber is a heuristic: in a bag of volume 4 it takes the
      jewel of best ratio (90 for volume 3) and strands the room that the two
      jewels of 50 for volume 2 would have filled. */
  lemma GreedyCanLose()
    ensures var js := [Jewel(3, 90), Jewel(2, 50), Jewel(2, 50)];
      && GreedyRobber.FillBagWithJewels(NewBag(4), js).jewels == [Jewel(3, 90)]
      && BruteRobber.FillBagWithJewels(NewBag(4), js) == Added(Bag(4, [Jewel(2, 50), Jewel(2, 50)], 4))
  {
    GreedyOnExample();
    BruteForceOnExample();
  }

  /** The greedy half of the example. */
  lemma GreedyOnExample()
    ensures GreedyRobber.FillBagWithJewels(NewBag(4), [Jewel(3, 90), Jewel(2, 50), Jewel(2, 50)]).jewels
         == [Jewel(3, 90)]
  {
  }

  /** The brute-force half of the example. */
  lemma BruteForceOnExample()
    ensures BruteRobber.FillBagWithJewels(NewBag(4), [Jewel(3, 90), Jewel(2, 50), Jewel(2, 50)])
         == Added(Bag(4, [Jewel(2, 50), Jewel(2, 50)], 4))
  {
  }

  /** The cut-off on a full bag breaks the comparison: with a jewel of no
      volume, the greedy robber (worth 6) beats the brute-force robber as
      written (worth 5) on a new bag of volume 1. */
  lemma GreedyBeatsBruteForceWithFreeJewel()
    ensures var js := [Jewel(1, 1), Jewel(0, 5)];
      && GreedyRobber.FillBagWithJewels(NewBag(1), js).jewels == [Jewel(0, 5), Jewel(1, 1)]
      && BruteRobber.FillBagWithJewels(NewBag(1), js) == Added(Bag(1, [Jewel(0, 5)], 0))
      && TotalPrice(GreedyRobber.FillBagWithJewels(NewBag(1), js).jewels)
         > TotalPrice(BruteRobber.FillBagWithJewels(NewBag(1), js).bag.jewels)
  {
    GreedyTakesFreeJewelFirst();
    BruteRobber.ZeroVolumeJewelIsLeftBehind();
    assert TotalPrice([Jewel(0, 5)]) == 5;
    assert TotalPrice([Jewel(0, 5), Jewel(1, 1)]) == 6;
  }

  /** The greedy half of the example: the free jewel ranks first (infinite
      ratio) and both jewels fit. */
  lemma GreedyTakesFreeJewelFirst()
    ensures GreedyRobber.FillBagWithJewels(NewBag(1), [Jewel(1, 1), Jewel(0, 5)]).jewels
         == [Jewel(0, 5), Jewel(1, 1)]
  {
  }
}
