/** The pagination of FullStack.Linq.Extensions/Page/PageExtensions.cs: page
    numbers and sizes are clamped to at least 1, a page is a window of the
    items, and the page count is at least 1. */
module Paging {
  import opened Common

  /** A C# `int`. */
  type int32 = x: int | -0x8000_0000 <= x < 0x8000_0000

  const MaxInt32: int := 0x7FFF_FFFF

  /** Two's-complement wrap-around of an unchecked `int` product. */
  function Wrap32(x: int): (r: int32)
    ensures -0x8000_0000 <= x <= MaxInt32 ==> r == x
  {
    (x + 0x8000_0000) % 0x1_0000_0000 - 0x8000_0000
  }

  /** `PageResult<T>`. */
  datatype PageResult<T> = PageResult(
    data: seq<T>,
    pageNumber: int32,
    pageSize: int32,
    totalPages: int32,
    totalRecords: int32)

  function Max1(x: int32): (r: int32)
    ensures r >= 1 && r >= x
  {
    if x >= 1 then x else 1
  }

  /** `Enumerable.Skip`: a count of zero or less skips nothing. */
  function Skip<T>(items: seq<T>, count: int): (r: seq<T>)
    ensures count <= 0 ==> r == items
    ensures 0 <= count <= |items| ==> r == items[count..]
    ensures count >= |items| ==> r == []
  {
    if count <= 0 then items else if count >= |items| then [] else items[count..]
  }

  /** `Enumerable.Take`: at most `count` items from the front. */
  function Take<T>(items: seq<T>, count: int): (r: seq<T>)
    ensures |r| <= if count <= 0 then 0 else count
  {
    if count <= 0 then [] else if count >= |items| then items else items[..count]
  }

  /** `Page(items, pageNumber, pageSize)`, with the offset of the first item
      computed exactly. `items.Count()` counts in a checked `int`, so more
      than `int.MaxValue` items throw an `OverflowException`. */
  function Page<T>(items: seq<T>, pageNumber: int32, pageSize: int32): (r: Result<PageResult<T>>)
    ensures r.Failure? <==> |items| > MaxInt32
    ensures r.Failure? ==> r.error == Overflow(ArithmeticOverflow)
    ensures r.Success? ==>
              && r.value.pageNumber == Max1(pageNumber) && r.value.pageSize == Max1(pageSize)
              && r.value.totalRecords == |items|
              && r.value.totalPages == TotalPages(|items|, r.value.pageSize)
              && |r.value.data| <= r.value.pageSize
  {
    if |items| > MaxInt32 then Failure(Overflow(ArithmeticOverflow))
    else
      var p := Max1(pageNumber);
      var s := Max1(pageSize);
      Success(PageResult(Take(Skip(items, Offset(p, s)), s), p, s, TotalPages(|items|, s), |items|))
  }

  /** Index of the first item of page p of size s. */
  function Offset(p: int32, s: int32): (k: int)
    requires p >= 1 && s >= 1
    ensures k >= 0
  {
    s * (p - 1)
  }

  /** `Math.Max(1, (int)Math.Ceiling((decimal)n / size))`: the fewest pages
      of `size` items that hold n items, and at least 1. */
  function TotalPages(n: nat, size: int32): (total: int32)
    requires n <= MaxInt32 && size >= 1
    ensures total >= 1 && total * size >= n
    ensures total == 1 || (total - 1) * size < n
  {
    var pages := NumBlocks(n, size);
    NumBlocksCover(n, size);
    if pages >= 1 then
      NumBlocksBound(n, size, pages - 1);
      MulAtLeast(pages - 1, size);
      pages
    else
      1
  }

  lemma MulAtLeast(a: nat, b: int)
    requires b >= 1
    ensures a * b >= a
  {
    assert a * b == a * (b - 1) + a;
  }

  lemma MulSucc(s: int, k: int)
    ensures s * k == s * (k - 1) + s
  {
  }

  /** Page p holds items [(p-1)s, ps), cut at the end; a page past the end
      is empty. */
  lemma PageData<T>(items: seq<T>, pageNumber: int32, pageSize: int32)
    requires |items| <= MaxInt32
    ensures var r := Page(items, pageNumber, pageSize).value;
            var start := Offset(r.pageNumber, r.pageSize);
            && (start >= |items| ==> r.data == [])
            && (start < |items| ==> r.data == items[start..Min(start + r.pageSize, |items|)])
  {
    var r := Page(items, pageNumber, pageSize).value;
    var s := Max1(pageSize);
    var start := Offset(Max1(pageNumber), s);
    var rest := Skip(items, start);
    assert r.data == Take(rest, s);
    if start < |items| {
      assert rest == items[start..];
      if start + s >= |items| {
        assert r.data == items[start..];
      } else {
        assert r.data == items[start..][..s];
      }
    }
  }

  /** The data of pages 1 to k, one after the other. */
  function Pages<T>(items: seq<T>, pageSize: int32, k: nat): seq<T>
    requires |items| <= MaxInt32 && k <= MaxInt32
  {
    if k == 0 then [] else Pages(items, pageSize, k - 1) + Page(items, k, pageSize).value.data
  }

  /** Pages 1 to k together are the first k * size items. */
  lemma {:induction false} PagesPrefix<T>(items: seq<T>, pageSize: int32, k: nat)
    requires |items| <= MaxInt32 && k <= MaxInt32
    ensures Pages(items, pageSize, k) == items[..Min(Max1(pageSize) * k, |items|)]
  {
    if k > 0 {
      PagesPrefix(items, pageSize, k - 1);
      MulSucc(Max1(pageSize), k);
      PagesStep(items, pageSize, k);
    }
  }

  /** Page k continues the prefix that pages 1 to k - 1 hold. */
  lemma PagesStep<T>(items: seq<T>, pageSize: int32, k: nat)
    requires |items| <= MaxInt32 && 0 < k <= MaxInt32
    requires Pages(items, pageSize, k - 1) == items[..Min(Offset(k, Max1(pageSize)), |items|)]
    ensures Pages(items, pageSize, k) == items[..Min(Offset(k, Max1(pageSize)) + Max1(pageSize), |items|)]
  {
    var s := Max1(pageSize);
    var start := Offset(k, s);
    var lo := Min(start, |items|);
    var hi := Min(start + s, |items|);
    assert Page(items, k, pageSize).value.data == items[lo..hi] by {
      PageData(items, k, pageSize);
    }
    PrefixSplit(items, lo, hi);
  }

  lemma PrefixSplit<T>(items: seq<T>, lo: nat, hi: nat)
    requires lo <= hi <= |items|
    ensures items[..hi] == items[..lo] + items[lo..hi]
  {
  }

  /** Reading pages 1 to `TotalPages` gives back every item, in order. */
  lemma AllPages<T>(items: seq<T>, pageSize: int32)
    requires |items| <= MaxInt32
    ensures var total := Page(items, 1, pageSize).value.totalPages;
            Pages(items, pageSize, total) == items
  {
    var total := Page(items, 1, pageSize).value.totalPages;
    PagesPrefix(items, pageSize, total);
    assert Max1(pageSize) * total >= |items|;
    assert items[..|items|] == items;
  }

  function Map<S, T>(f: S -> T, xs: seq<S>): (r: seq<T>)
    ensures |r| == |xs| && forall i :: 0 <= i < |xs| ==> r[i] == f(xs[i])
  {
    seq(|xs|, i requires 0 <= i < |xs| => f(xs[i]))
  }

  /** `PageAs(items, mapper, pageNumber, pageSize)`: `Page`'s metadata with
      the page's items mapped. */
  function PageAs<S, T>(items: seq<S>, mapper: S -> T, pageNumber: int32, pageSize: int32): (r: Result<PageResult<T>>)
    ensures var p := Page(items, pageNumber, pageSize);
            && (r.Failure? <==> p.Failure?)
            && (r.Failure? ==> r.error == p.error)
            && (r.Success? ==>
                  && r.value.pageNumber == p.value.pageNumber && r.value.pageSize == p.value.pageSize
                  && r.value.totalPages == p.value.totalPages && r.value.totalRecords == p.value.totalRecords
                  && |r.value.data| == |p.value.data|
                  && forall i :: 0 <= i < |r.value.data| ==> r.value.data[i] == mapper(p.value.data[i]))
  {
    var result :- Page(items, pageNumber, pageSize);
    Success(PageResult(Map(mapper, result.data), result.pageNumber, result.pageSize, result.totalPages,
                       result.totalRecords))
  }

  // -----------------------------------------------------------------------
  // The offset as the code computes it

  /** `Page` as written: `pageSize * (pageNumber - 1)` is an unchecked `int`
      product, so it wraps around for pages far past the end. */
  function PageAsWritten<T>(items: seq<T>, pageNumber: int32, pageSize: int32): (r: Result<PageResult<T>>)
    ensures Offset(Max1(pageNumber), Max1(pageSize)) <= MaxInt32 ==> r == Page(items, pageNumber, pageSize)
    ensures |items| > MaxInt32 ==> r == Failure(Overflow(ArithmeticOverflow))
  {
    if |items| > MaxInt32 then Failure(Overflow(ArithmeticOverflow))
    else
      var p := Max1(pageNumber);
      var s := Max1(pageSize);
      Success(PageResult(Take(Skip(items, Wrap32(s * (p - 1))), s), p, s, TotalPages(|items|, s), |items|))
  }

  /** Page 2^30 + 1 of size 4 starts at item 2^32, which wraps to 0: the code
      returns the first page where the page is past the end and should be
      empty. */
  lemma PageAsWrittenWraps()
    ensures var items := [10, 20, 30, 40];
            && Page(items, 0x4000_0001, 4) == Success(PageResult([], 0x4000_0001, 4, 1, 4))
            && PageAsWritten(items, 0x4000_0001, 4) == Success(PageResult(items, 0x4000_0001, 4, 1, 4))
  {
    assert Wrap32(4 * 0x4000_0000) == 0;
  }
}
