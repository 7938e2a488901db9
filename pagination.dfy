/**
 * The pagination envelope both listings return: skip `(page - 1) * limit`
 * matching rows, take `limit`, and report `total`, the requested `page`
 * and `lastPage = ceil(total / limit)`.
 */
module Pagination {

  /** Page numbers and page sizes, validated as positive integers before a store sees them. */
  type Positive = n: int | n >= 1 witness 1

  function Min(a: int, b: int): int { if a <= b then a else b }

  /** The ceiling of total over limit: the fewest pages of `limit` rows that hold `total` rows. */
  function LastPage(total: nat, limit: Positive): (last: nat)
    ensures total <= last * limit
    ensures (last - 1) * limit < total
  {
    var q := (total + limit - 1) / limit;
    assert q * limit + (total + limit - 1) % limit == total + limit - 1;
    q
  }

  /** The number of rows that precede a page. */
  function Offset(page: Positive, limit: Positive): nat
  {
    (page - 1) * limit
  }

  /** findMany's skip/take over an ordered listing. */
  function Window<T>(s: seq<T>, skip: nat, take: nat): (w: seq<T>)
    ensures |w| == if |s| <= skip then 0 else Min(take, |s| - skip)
    ensures forall k :: 0 <= k < |w| ==> w[k] == s[skip + k]
  {
    if |s| <= skip then [] else s[skip..skip + Min(take, |s| - skip)]
  }

  datatype Meta = Meta(total: nat, page: nat, lastPage: nat)

  /** The `{ data, meta }` envelope. */
  datatype Page<T> = Page(data: seq<T>, meta: Meta)

  /** The envelope built from the count query and the ordered listing. */
  function Paginate<T>(total: nat, listing: seq<T>, page: Positive, limit: Positive): (p: Page<T>)
    ensures p.meta.total == total && p.meta.page == page
    ensures total <= p.meta.lastPage * limit && (p.meta.lastPage - 1) * limit < total
    ensures |p.data| <= limit
    ensures forall k :: 0 <= k < |p.data| ==>
              Offset(page, limit) + k < |listing| && p.data[k] == listing[Offset(page, limit) + k]
  {
    Page(Window(listing, Offset(page, limit), limit), Meta(total, page, LastPage(total, limit)))
  }

  lemma MulMonotone(a: int, b: int, c: nat)
    requires a <= b
    ensures a * c <= b * c
  {
  }

  /** A page beyond lastPage is empty and reports the same total and lastPage. */
  lemma PastLastPage<T>(listing: seq<T>, page: Positive, limit: Positive)
    requires page > LastPage(|listing|, limit)
    ensures Paginate(|listing|, listing, page, limit).data == []
    ensures Paginate(|listing|, listing, page, limit).meta == Meta(|listing|, page, LastPage(|listing|, limit))
  {
    var last := LastPage(|listing|, limit);
    MulMonotone(last, page - 1, limit);
    assert |listing| <= Offset(page, limit);
  }

  /** A page before lastPage is full. */
  lemma InnerPageIsFull<T>(listing: seq<T>, page: Positive, limit: Positive)
    requires page < LastPage(|listing|, limit)
    ensures |Paginate(|listing|, listing, page, limit).data| == limit
  {
    var last := LastPage(|listing|, limit);
    MulMonotone(page, last - 1, limit);
    assert Offset(page, limit) + limit <= (last - 1) * limit < |listing|;
  }

  /** Where a page falls relative to lastPage decides how much it holds. */
  lemma PageShape<T>(listing: seq<T>, page: Positive, limit: Positive)
    ensures var p := Paginate(|listing|, listing, page, limit);
            && (page > p.meta.lastPage ==> p.data == [])
            && (page < p.meta.lastPage ==> |p.data| == limit)
  {
    if page > LastPage(|listing|, limit) {
      PastLastPage(listing, page, limit);
    }
    if page < LastPage(|listing|, limit) {
      InnerPageIsFull(listing, page, limit);
    }
  }

  /** The last page holds the rows that the full pages before it leave over, and at least one. */
  lemma LastPageHoldsRest<T>(listing: seq<T>, limit: Positive)
    requires |listing| > 0
    ensures var last := LastPage(|listing|, limit);
            last >= 1 &&
            |Paginate(|listing|, listing, last, limit).data| == |listing| - (last - 1) * limit >= 1
  {
    var last := LastPage(|listing|, limit);
    assert last >= 1;
    assert |listing| - Offset(last, limit) <= limit;
  }

  /** Every matching row sits on page `k / limit + 1`, at position `k % limit`. */
  lemma EveryRowOnItsPage<T>(listing: seq<T>, limit: Positive, k: nat)
    requires k < |listing|
    ensures 1 <= k / limit + 1 <= LastPage(|listing|, limit)
    ensures var p := Paginate(|listing|, listing, k / limit + 1, limit);
            k % limit < |p.data| && p.data[k % limit] == listing[k]
  {
    var q, m := k / limit, k % limit;
    assert k == q * limit + m && 0 <= m < limit;
    var last := LastPage(|listing|, limit);
    if last <= q {
      MulMonotone(last, q, limit);
    }
    assert q < last;
    assert Offset(q + 1, limit) == q * limit;
    var p := Paginate(|listing|, listing, q + 1, limit);
    assert |p.data| == Min(limit, |listing| - q * limit);
  }

  /** Fifty-seven rows at ten per page: six pages, the sixth holds seven, the seventh none. */
  lemma FiftySevenRows<T>(listing: seq<T>)
    requires |listing| == 57
    ensures LastPage(57, 10) == 6
    ensures |Paginate(57, listing, 6, 10).data| == 7
    ensures Paginate(57, listing, 7, 10) == Page([], Meta(57, 7, 6))
  {
    assert Offset(6, 10) == 50;
    assert Offset(7, 10) == 60;
  }
}
