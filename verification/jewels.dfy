/**
 A jewel is a (volume, price) pair; this module also holds the sums over
 collections of jewels that the bag and both robbers use, and the notion of
 an order-preserving selection (a subsequence).
 */
module Jewels {

  /** A jewel. The program stores both fields as floating-point numbers;
      here they are whole, non-negative numbers. */
  datatype Jewel = Jewel(volume: nat, price: nat)

  /** Sum of the volumes of `js`. */
  function TotalVolume(js: seq<Jewel>): nat
  {
    if js == [] then 0 else js[0].volume + TotalVolume(js[1..])
  }

  /** Sum of the prices of `js`. */
  function TotalPrice(js: seq<Jewel>): nat
  {
    if js == [] then 0 else js[0].price + TotalPrice(js[1..])
  }

  /** Every jewel of `js` takes up some room. */
  predicate AllTakeRoom(js: seq<Jewel>)
  {
    forall k :: 0 <= k < |js| ==> js[k].volume >= 1
  }

  /** The sum of volumes distributes over concatenation. */
  lemma {:induction false} TotalVolumeAppend(a: seq<Jewel>, b: seq<Jewel>)
    ensures TotalVolume(a + b) == TotalVolume(a) + TotalVolume(b)
  {
    if a != [] {
      assert (a + b)[1..] == a[1..] + b;
      TotalVolumeAppend(a[1..], b);
    } else {
      assert a + b == b;
    }
  }

  /** The sum of prices distributes over concatenation. */
  lemma {:induction false} TotalPriceAppend(a: seq<Jewel>, b: seq<Jewel>)
    ensures TotalPrice(a + b) == TotalPrice(a) + TotalPrice(b)
  {
    if a != [] {
      assert (a + b)[1..] == a[1..] + b;
      TotalPriceAppend(a[1..], b);
    } else {
      assert a + b == b;
    }
  }

  /** `s` with the first occurrence of `x` taken out. */
  function RemoveOne(s: seq<Jewel>, x: Jewel): (r: seq<Jewel>)
    requires x in s
    ensures |r| == |s| - 1
  {
    if s[0] == x then s[1..] else [s[0]] + RemoveOne(s[1..], x)
  }

  /** Taking one occurrence of `x` out of `s` removes exactly one copy of it
      from the multiset and exactly its volume and price from the sums. */
  lemma {:induction false} RemoveOneSums(s: seq<Jewel>, x: Jewel)
    requires x in s
    ensures multiset(RemoveOne(s, x)) == multiset(s) - multiset{x}
    ensures TotalVolume(s) == x.volume + TotalVolume(RemoveOne(s, x))
    ensures TotalPrice(s) == x.price + TotalPrice(RemoveOne(s, x))
  {
    assert s == [s[0]] + s[1..];
    if s[0] != x {
      RemoveOneSums(s[1..], x);
      var r := RemoveOne(s[1..], x);
      assert RemoveOne(s, x)[1..] == r;
    }
  }

  /** `a` is `b` with some elements left out and the rest kept in order. */
  predicate IsSubsequence<T(==)>(a: seq<T>, b: seq<T>)
    decreases |b|
  {
    if a == [] then true
    else if b == [] then false
    else (a[0] == b[0] && IsSubsequence(a[1..], b[1..])) || IsSubsequence(a, b[1..])
  }

  /** An order-preserving selection takes each element at most as often as
      it occurs. */
  lemma {:induction false} SubsequenceIsSubmultiset<T>(a: seq<T>, b: seq<T>)
    requires IsSubsequence(a, b)
    ensures multiset(a) <= multiset(b)
    decreases |b|
  {
    if a != [] {
      assert b == [b[0]] + b[1..];
      if a[0] == b[0] && IsSubsequence(a[1..], b[1..]) {
        SubsequenceIsSubmultiset(a[1..], b[1..]);
        assert a == [a[0]] + a[1..];
      } else {
        SubsequenceIsSubmultiset(a, b[1..]);
      }
    }
  }
}
