/**
 * BookSetGenerator: a fixed set of random stock books made at construction,
 * and random samples of a set by a set of distinct random offsets into its
 * iteration order.
 */
module BookSetGeneration {
  import opened BookStoreTypes
  import opened StoreSpec
  import opened RandomBooks

  /** bookStoreSize: how many books a generator makes, and the range offsets are drawn from. */
  const BookStoreSize := 100

  /** generateRandomOffsets' first clamp: the bound is at most BookStoreSize - 1. */
  function ClampedBound(bound: int): (r: int)
    ensures r <= BookStoreSize - 1
    ensures bound < BookStoreSize ==> r == bound
  {
    if bound >= BookStoreSize then BookStoreSize - 1 else bound
  }

  /** The number of offsets generateRandomOffsets returns: num, at most the clamped bound, and none when that is not positive. */
  function OffsetCount(num: int, bound: int): (r: nat)
    ensures r <= BookStoreSize - 1
    ensures r <= num || r == 0
    ensures r <= ClampedBound(bound) || r == 0
    ensures 0 <= num <= ClampedBound(bound) ==> r == num
  {
    var n := if num > ClampedBound(bound) then ClampedBound(bound) else num;
    if n > 0 then n else 0
  }

  /** The elements of items at the given positions, in iteration order. */
  function AtOffsets<T>(items: seq<T>, offsets: set<int>): (r: seq<T>)
    ensures |r| <= |items|
    ensures forall x :: x in r ==> x in items
    ensures forall i :: 0 <= i < |items| && i in offsets ==> items[i] in r
  {
    if items == [] then []
    else
      var init := items[..|items| - 1];
      assert forall i :: 0 <= i < |init| ==> init[i] == items[i];
      AtOffsets(init, offsets) + if |items| - 1 in offsets then [items[|items| - 1]] else []
  }

  /** Positions past the end of items do not matter to AtOffsets. */
  lemma {:induction false} AtOffsetsIgnoresBeyond<T>(items: seq<T>, offsets: set<int>, x: int)
    requires x >= |items|
    ensures AtOffsets(items, offsets - {x}) == AtOffsets(items, offsets)
  {
    if items != [] {
      AtOffsetsIgnoresBeyond(items[..|items| - 1], offsets, x);
    }
  }

  /**
   * A sample has at most as many elements as there are offsets, and exactly
   * as many when every offset is a position of items.
   */
  lemma {:induction false} AtOffsetsSize<T>(items: seq<T>, offsets: set<int>)
    ensures |AtOffsets(items, offsets)| <= |offsets|
    ensures (forall o :: o in offsets ==> 0 <= o < |items|) ==> |AtOffsets(items, offsets)| == |offsets|
  {
    if items != [] {
      var last := |items| - 1;
      var init := items[..last];
      if last in offsets {
        AtOffsetsIgnoresBeyond(init, offsets, last);
        AtOffsetsSize(init, offsets - {last});
      } else {
        AtOffsetsSize(init, offsets);
      }
    } else if forall o :: o in offsets ==> 0 <= o < |items| {
      assert offsets == {};
    }
  }

  /** A sample of a set is a set: distinct elements give a distinct sample. */
  lemma {:induction false} AtOffsetsDistinct<T>(items: seq<T>, offsets: set<int>)
    requires Distinct(items)
    ensures Distinct(AtOffsets(items, offsets))
  {
    if items != [] {
      var init := items[..|items| - 1];
      AtOffsetsDistinct(init, offsets);
      assert items[|items| - 1] !in init;
    }
  }

  /** A sample of books with distinct ISBNs has distinct ISBNs. */
  lemma {:induction false} AtOffsetsDistinctIsbns(items: seq<StockBook>, offsets: set<int>)
    requires DistinctBookIsbns(items)
    ensures DistinctBookIsbns(AtOffsets(items, offsets))
  {
    if items != [] {
      var last := |items| - 1;
      var init := items[..last];
      AtOffsetsDistinctIsbns(init, offsets);
      forall x | x in AtOffsets(init, offsets)
        ensures x.isbn != items[last].isbn
      {
        var i :| 0 <= i < |init| && init[i] == x;
        assert items[i] == x;
      }
    }
  }

  /** An element found only at a position that is not an offset is not in the sample. */
  lemma {:induction false} AtOffsetsOmits<T>(items: seq<T>, offsets: set<int>, j: int)
    requires 0 <= j < |items| && j !in offsets
    requires forall i :: 0 <= i < |items| && i != j ==> items[i] != items[j]
    ensures items[j] !in AtOffsets(items, offsets)
  {
    var last := |items| - 1;
    var init := items[..last];
    if j < last {
      AtOffsetsOmits(init, offsets, j);
    } else {
      assert items[j] !in init;
    }
  }

  /** The sampling loop of sampleFromSetOfISBNs and nextSetOfStockBooks: keep the elements whose position is an offset. */
  method SelectAtOffsets<T>(items: seq<T>, offsets: set<int>) returns (selected: seq<T>)
    ensures selected == AtOffsets(items, offsets)
  {
    selected := [];
    var offset := 0;
    while offset < |items|
      invariant 0 <= offset <= |items|
      invariant selected == AtOffsets(items[..offset], offsets)
    {
      assert items[..offset + 1][..offset] == items[..offset];
      if offset in offsets {
        selected := selected + [items[offset]];
      }
      offset := offset + 1;
    }
    assert items[..|items|] == items;
  }

  /** The seq a..b-1. */
  function Range(a: int, b: int): (r: seq<int>)
    requires a <= b
    ensures |r| == b - a && forall i :: 0 <= i < |r| ==> r[i] == a + i
  {
    seq(b - a, i requires 0 <= i < b - a => a + i)
  }

  /**
   * generateRandomOffsets, with the k-th random index given by draw(k)
   * (taken into [0, |available| - 1), the range nextInt(0, size - 1) draws
   * from). After clamping, it removes offsets from the list 0 ..
   * BookStoreSize - 1 at random indices until it holds num of them: so it
   * returns OffsetCount(num, bound) distinct offsets. The lowest bound min
   * is ignored and the offsets are drawn from the whole list, whatever the
   * bound; and since the index is never the list's last, the last offset,
   * BookStoreSize - 1, is never chosen.
   */
  method GenerateRandomOffsets(num: int, min: int, bound: int, draw: nat -> int) returns (chosen: set<int>)
    ensures |chosen| == OffsetCount(num, bound)
    ensures forall o :: o in chosen ==> 0 <= o < BookStoreSize - 1
  {
    var b := ClampedBound(bound);
    var n := if num > b then b else num;
    var available := Range(0, BookStoreSize);
    chosen := {};
    var k := 0;
    while |chosen| < n
      invariant |chosen| == k && |available| == BookStoreSize - k
      invariant k <= OffsetCount(num, bound)
      invariant Distinct(available)
      invariant forall i :: 0 <= i < |available| ==> 0 <= available[i] < BookStoreSize && available[i] !in chosen
      invariant available[|available| - 1] == BookStoreSize - 1
      invariant forall o :: o in chosen ==> 0 <= o < BookStoreSize - 1
      decreases n - |chosen|
    {
      var index := draw(k) % (|available| - 1);
      var offset := available[index];
      available := available[..index] + available[index + 1..];
      chosen := chosen + {offset};
      k := k + 1;
    }
  }

  class BookSetGenerator {
    /** The generator's books, in the set's iteration order. */
    const books: seq<StockBook>

    ghost predicate Valid()
    {
      |books| == BookStoreSize && DistinctBookIsbns(books)
    }

    /** Make BookStoreSize random books with the counter's next ISBNs, the i-th from the i-th draws. */
    constructor(counter: IsbnCounter, draws: nat -> BookDraws)
      requires counter.Valid()
      modifies counter
      ensures Valid()
      ensures counter.Valid() && counter.next == old(counter.next) + BookStoreSize
      ensures books == RandomBatch(old(counter.next), draws, BookStoreSize)
    {
      var made := MakeRandomBooks(counter, BookStoreSize, draws);
      books := made;
    }

    /**
     * sampleFromSetOfISBNs: the elements of a set at random distinct
     * offsets. The result is a subset of the input with at most as many
     * elements as the offsets, which number num clamped to |isbns| - 1;
     * since offsets are drawn from the whole of 0 .. BookStoreSize - 2, a
     * small set can yield fewer.
     */
    method SampleFromSetOfIsbns(isbns: seq<ISBN>, num: int, draw: nat -> int)
      returns (selected: seq<ISBN>, offsets: set<int>)
      requires Distinct(isbns)
      ensures |offsets| == OffsetCount(num, |isbns| - 1)
      ensures selected == AtOffsets(isbns, offsets)
      ensures Distinct(selected)
      ensures forall x :: x in selected ==> x in isbns
      ensures |selected| <= OffsetCount(num, |isbns| - 1)
    {
      offsets := GenerateRandomOffsets(num, 0, |isbns| - 1, draw);
      selected := SelectAtOffsets(isbns, offsets);
      AtOffsetsSize(isbns, offsets);
      AtOffsetsDistinct(isbns, offsets);
    }

    /**
     * nextSetOfStockBooks: the generator's books at random distinct offsets.
     * As the generator holds BookStoreSize books every offset is a position,
     * so it returns exactly OffsetCount(num, BookStoreSize - 1) distinct
     * books of its own, never the last one in iteration order.
     */
    method NextSetOfStockBooks(num: int, draw: nat -> int)
      returns (bookSet: seq<StockBook>, offsets: set<int>)
      requires Valid()
      ensures bookSet == AtOffsets(books, offsets)
      ensures |bookSet| == OffsetCount(num, BookStoreSize - 1)
      ensures DistinctBookIsbns(bookSet)
      ensures forall b :: b in bookSet ==> b in books && b != books[BookStoreSize - 1]
    {
      offsets := GenerateRandomOffsets(num, 0, |books| - 1, draw);
      bookSet := SelectAtOffsets(books, offsets);
      AtOffsetsSize(books, offsets);
      AtOffsetsDistinctIsbns(books, offsets);
      AtOffsetsOmits(books, offsets, BookStoreSize - 1);
    }
  }
}
