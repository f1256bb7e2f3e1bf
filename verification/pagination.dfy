/** The page slice every listing endpoint applies to its result:
    `items[per_page * (page - 1):][:per_page]`, with Python's clamping of
    slice bounds past the end of the list. */
module Pagination {

  function Min(a: int, b: int): int {
    if a <= b then a else b
  }

  /** `xs[n:]` for a non-negative `n`. */
  function DropFront<T>(xs: seq<T>, n: nat): (r: seq<T>)
    ensures |r| == |xs| - Min(n, |xs|)
    ensures forall i :: 0 <= i < |r| ==> r[i] == xs[n + i]
  {
    if n <= |xs| then xs[n..] else []
  }

  /** `xs[:n]` for a non-negative `n`. */
  function TakeFront<T>(xs: seq<T>, n: nat): (r: seq<T>)
    ensures |r| == Min(n, |xs|)
    ensures forall i :: 0 <= i < |r| ==> r[i] == xs[i]
  {
    if n <= |xs| then xs[..n] else xs
  }

  /** The offset of the first item of `page`. */
  function Offset(page: int, perPage: int): (o: nat)
    requires page >= 1 && perPage >= 0
    ensures o == perPage * (page - 1)
  {
    MulNonNegative(perPage, page - 1);
    perPage * (page - 1)
  }

  lemma MulNonNegative(a: int, b: int)
    requires a >= 0 && b >= 0
    ensures a * b >= 0
  {
  }

  /** Page `page` of `xs`, `perPage` items to a page, counting from 1. */
  function Page<T>(xs: seq<T>, page: int, perPage: int): (r: seq<T>)
    requires page >= 1 && perPage >= 0
    ensures |r| == Min(perPage, |xs| - Min(Offset(page, perPage), |xs|))
    ensures |r| <= perPage
    ensures Offset(page, perPage) >= |xs| ==> r == []
    ensures forall i :: 0 <= i < |r| ==>
      Offset(page, perPage) + i < |xs| && r[i] == xs[Offset(page, perPage) + i]
  {
    TakeFront(DropFront(xs, Offset(page, perPage)), perPage)
  }

  /** Pages 1 to `k`, one after the other. */
  function FirstPages<T>(xs: seq<T>, k: nat, perPage: nat): seq<T> {
    if k == 0 then [] else FirstPages(xs, k - 1, perPage) + Page(xs, k, perPage)
  }

  lemma MulStep(k: nat, perPage: nat)
    requires k >= 1
    ensures k * perPage == (k - 1) * perPage + perPage
    ensures (k - 1) * perPage >= 0
  {
  }

  /** Page `k` is the slice between the ends of pages `k - 1` and `k`. */
  lemma PageIsSlice<T>(xs: seq<T>, k: nat, perPage: nat, lo: nat, hi: nat)
    requires k >= 1
    requires lo == Min(|xs|, (k - 1) * perPage) && hi == Min(|xs|, (k - 1) * perPage + perPage)
    ensures lo <= hi <= |xs|
    ensures Page(xs, k, perPage) == xs[lo..hi]
  {
    assert Offset(k, perPage) == (k - 1) * perPage;
  }

  /** Consecutive pages tile the list: pages 1 to `k` together are exactly its
      first `min(|xs|, k * perPage)` items, with nothing skipped or repeated. */
  lemma {:induction false} FirstPagesArePrefix<T>(xs: seq<T>, k: nat, perPage: nat)
    ensures k * perPage >= 0
    ensures FirstPages(xs, k, perPage) == xs[..Min(|xs|, k * perPage)]
  {
    MulNonNegative(k, perPage);
    if k > 0 {
      FirstPagesArePrefix(xs, k - 1, perPage);
      MulStep(k, perPage);
      var before := Min(|xs|, (k - 1) * perPage);
      var after := Min(|xs|, k * perPage);
      PageIsSlice(xs, k, perPage, before, after);
      PrefixThenSlice(xs, before, after);
    }
  }

  lemma PrefixThenSlice<T>(xs: seq<T>, lo: nat, hi: nat)
    requires lo <= hi <= |xs|
    ensures xs[..lo] + xs[lo..hi] == xs[..hi]
  {
  }

  /** A first page at least as long as the list is the whole list. */
  lemma FirstPageWhole<T>(xs: seq<T>, perPage: int)
    requires perPage >= |xs|
    ensures Page(xs, 1, perPage) == xs
  {
  }

  /** A page never holds an item of another page: position `i` of page `p`
      and position `j` of a later page `q`, when both lie inside the list,
      are items of their pages, and the first comes before the second. */
  lemma {:induction false} PagesDisjoint<T>(xs: seq<T>, p: int, q: int, perPage: int, i: int, j: int)
    requires 1 <= p < q && perPage >= 0
    requires 0 <= i < perPage && Offset(p, perPage) + i < |xs|
    requires 0 <= j < perPage && Offset(q, perPage) + j < |xs|
    ensures i < |Page(xs, p, perPage)| && Page(xs, p, perPage)[i] == xs[Offset(p, perPage) + i]
    ensures j < |Page(xs, q, perPage)| && Page(xs, q, perPage)[j] == xs[Offset(q, perPage) + j]
    ensures Offset(p, perPage) + i < Offset(q, perPage) + j
  {
    assert Offset(q, perPage) - Offset(p, perPage) == perPage * (q - p);
    MulNonNegative(perPage, q - p - 1);
    assert perPage * (q - p) == perPage * (q - p - 1) + perPage;
  }
}
