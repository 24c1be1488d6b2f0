/**
 The bag the robbers fill: a maximum volume fixed at construction, the
 jewels inside in the order they were added, and the running volume inside.
 Adding is checked: a single jewel or a whole batch is either committed in
 full or rejected with nothing added.
 */
module Bags {
  import opened Jewels

  datatype Bag = Bag(maxVolume: int, jewels: seq<Jewel>, volumeInside: int)

  /** The two ways an add can be refused, one per exception the bag throws. */
  datatype BagError = JewelDoesNotFit | JewelsDoNotFit

  /** Outcome of an add: the bag after it, or why nothing was added. A refused
      add leaves the caller's bag exactly as it was. */
  datatype AddResult = Added(bag: Bag) | Rejected(error: BagError)

  /** The running volume is the sum of the volumes of the jewels inside. */
  predicate Accounted(b: Bag)
  {
    b.volumeInside == TotalVolume(b.jewels)
  }

  /** The bag's invariant: accounted for and not over its maximum volume. */
  predicate Invariant(b: Bag)
  {
    Accounted(b) && b.volumeInside <= b.maxVolume
  }

  /** A new, empty bag. */
  function NewBag(maxVolume: int): (b: Bag)
    ensures b.maxVolume == maxVolume && b.jewels == []
    ensures Accounted(b)
    ensures Invariant(b) <==> maxVolume >= 0
  {
    Bag(maxVolume, [], 0)
  }

  /** Whether `j` can still go into `b`. */
  function DoesJewelFit(b: Bag, j: Jewel): (fits: bool)
    ensures Accounted(b) ==> (fits <==> TotalVolume(b.jewels + [j]) <= b.maxVolume)
  {
    TotalVolumeAppend(b.jewels, [j]);
    b.volumeInside + j.volume <= b.maxVolume
  }

  /** Adds one jewel at the end, or refuses it when it does not fit. */
  function AddJewel(b: Bag, j: Jewel): (r: AddResult)
    ensures r.Rejected? <==> !DoesJewelFit(b, j)
    ensures r.Rejected? ==> r.error == JewelDoesNotFit
    ensures r.Added? ==> r.bag.maxVolume == b.maxVolume && r.bag.jewels == b.jewels + [j]
    ensures r.Added? ==> r.bag.volumeInside == b.volumeInside + j.volume
    ensures r.Added? && Accounted(b) ==> Invariant(r.bag)
  {
    if !DoesJewelFit(b, j) then
      Rejected(JewelDoesNotFit)
    else
      TotalVolumeAppend(b.jewels, [j]);
      Added(b.(jewels := b.jewels + [j], volumeInside := b.volumeInside + j.volume))
  }

  /** Adds a whole batch at the end, or nothing at all when the batch as a
      whole would overfill the bag. */
  function AddJewels(b: Bag, batch: seq<Jewel>): (r: AddResult)
    ensures Accounted(b) ==> (r.Added? <==> TotalVolume(b.jewels + batch) <= b.maxVolume)
    ensures r.Rejected? ==> r.error == JewelsDoNotFit
    ensures r.Added? ==> r.bag.maxVolume == b.maxVolume && r.bag.jewels == b.jewels + batch
    ensures r.Added? ==> r.bag.volumeInside == b.volumeInside + TotalVolume(batch)
    ensures r.Added? && Accounted(b) ==> Invariant(r.bag)
    ensures batch == [] && Invariant(b) ==> r == Added(b)
  {
    TotalVolumeAppend(b.jewels, batch);
    var batchVolume := TotalVolume(batch);
    if b.volumeInside + batchVolume > b.maxVolume then
      Rejected(JewelsDoNotFit)
    else
      assert batch == [] ==> b.jewels + batch == b.jewels;
      Added(b.(jewels := b.jewels + batch, volumeInside := b.volumeInside + batchVolume))
  }

  /** Reference for a batch add: the jewels added one by one with `AddJewel`,
      stopping at the first that does not fit. */
  function AddEach(b: Bag, batch: seq<Jewel>): AddResult
    decreases |batch|
  {
    if batch == [] then Added(b)
    else
      match AddJewel(b, batch[0])
      case Added(next) => AddEach(next, batch[1..])
      case Rejected(e) => Rejected(e)
  }

  /** A batch add succeeds exactly when adding the same jewels one at a time
      would, and then yields the same bag; when it fails it commits nothing,
      whereas adding one at a time may have committed a prefix. */
  lemma {:induction false} AddJewelsIsAllOrNothing(b: Bag, batch: seq<Jewel>)
    requires b.volumeInside <= b.maxVolume
    ensures AddJewels(b, batch).Added? <==> AddEach(b, batch).Added?
    ensures AddJewels(b, batch).Added? ==> AddJewels(b, batch).bag == AddEach(b, batch).bag
    decreases |batch|
  {
    if batch != [] {
      var x := batch[0];
      assert batch == [x] + batch[1..];
      TotalVolumeAppend([x], batch[1..]);
      if DoesJewelFit(b, x) {
        var next := AddJewel(b, x).bag;
        AddJewelsIsAllOrNothing(next, batch[1..]);
        assert next.jewels + batch[1..] == b.jewels + batch;
      }
    }
  }
}
