/** Page slicing of a feed: a fixed page size, a 1-based page number taken
    from the request, and clamping of missing, malformed or out-of-range
    numbers instead of an error. */
module Paging {

  /** The `page` query parameter as the request carries it. */
  datatype PageParam = Absent | NotAnInteger | Number(n: int)

  /** One page of a feed: its number, how many pages there are, its items. */
  datatype Page<T> = Page(number: nat, numPages: nat, items: seq<T>)

  /** The index of the first item of page k, that is (k - 1) * perPage
      (PageStartIsProduct), written without multiplication. */
  function PageStart(k: nat, perPage: nat): nat
  {
    if k <= 1 then 0 else PageStart(k - 1, perPage) + perPage
  }

  lemma {:induction false} PageStartIsProduct(k: nat, perPage: nat)
    requires k >= 1
    ensures PageStart(k, perPage) == (k - 1) * perPage
  {
    if k > 1 {
      PageStartIsProduct(k - 1, perPage);
    }
  }

  lemma {:induction false} PageStartMono(j: nat, k: nat, perPage: nat)
    requires 1 <= j <= k
    ensures PageStart(j, perPage) <= PageStart(k, perPage)
    decreases k
  {
    if j < k {
      PageStartMono(j, k - 1, perPage);
    }
  }

  /** How many pages `count` items fill; an empty feed still has one page.
      The items fit in n pages but not in n - 1. */
  function NumPages(count: nat, perPage: nat): (n: nat)
    requires perPage > 0
    ensures n >= 1
    ensures count == 0 ==> n == 1
    ensures count <= PageStart(n + 1, perPage)
    ensures count > 0 ==> PageStart(n, perPage) < count
    decreases count
  {
    if count <= perPage then 1 else 1 + NumPages(count - perPage, perPage)
  }

  /** The number of the page shown for `param`: page 1 when the parameter is
      missing or not an integer, the last page when it is outside 1..numPages. */
  function PageNumber(param: PageParam, numPages: nat): (k: nat)
    requires numPages >= 1
    ensures 1 <= k <= numPages
    ensures !param.Number? ==> k == 1
    ensures param.Number? && 1 <= param.n <= numPages ==> k == param.n
    ensures param.Number? && !(1 <= param.n <= numPages) ==> k == numPages
  {
    match param
    case Number(m) => if 1 <= m <= numPages then m else numPages
    case _ => 1
  }

  /** Where page k of a feed of `count` items starts, and that every page
      but the last is full. */
  lemma PageBounds(count: nat, perPage: nat, k: nat)
    requires perPage > 0 && 1 <= k <= NumPages(count, perPage)
    ensures PageStart(k, perPage) <= count
    ensures k < NumPages(count, perPage) ==> PageStart(k, perPage) + perPage <= count
  {
    var n := NumPages(count, perPage);
    PageStartMono(k, n, perPage);
    if k < n {
      PageStartMono(k + 1, n, perPage);
    }
  }

  /** The page of `s` shown for `param`: a run of consecutive items of `s`
      from the start of that page; every page but the last is full and the
      last one ends with the last item. */
  function Paginate<T>(s: seq<T>, perPage: nat, param: PageParam): (p: Page<T>)
    requires perPage > 0
    ensures p.numPages == NumPages(|s|, perPage)
    ensures p.number == PageNumber(param, p.numPages)
    ensures |p.items| <= perPage
    ensures PageStart(p.number, perPage) + |p.items| <= |s|
    ensures forall i :: 0 <= i < |p.items| ==> p.items[i] == s[PageStart(p.number, perPage) + i]
    ensures p.number < p.numPages ==> |p.items| == perPage
    ensures p.number == p.numPages ==> PageStart(p.number, perPage) + |p.items| == |s|
  {
    var n := NumPages(|s|, perPage);
    var k := PageNumber(param, n);
    PageBounds(|s|, perPage, k);
    var lo := PageStart(k, perPage);
    var hi := if k < n then lo + perPage else |s|;
    Page(k, n, s[lo..hi])
  }

  /** The page that item i falls on starts i % perPage items before it. */
  lemma ItemPageStart(i: nat, perPage: nat)
    requires perPage > 0
    ensures PageStart(i / perPage + 1, perPage) + i % perPage == i
    ensures i % perPage < perPage
  {
    PageStartIsProduct(i / perPage + 1, perPage);
  }

  /** Every item of a feed is shown on exactly the page its position says:
      the item at index i is item i % perPage of page i / perPage + 1. */
  lemma ItemOnItsPage<T>(s: seq<T>, perPage: nat, i: nat)
    requires perPage > 0 && i < |s|
    ensures var p := Paginate(s, perPage, Number(i / perPage + 1));
            p.number == i / perPage + 1 &&
            i % perPage < |p.items| &&
            p.items[i % perPage] == s[i]
  {
    var n := NumPages(|s|, perPage);
    var q, r := i / perPage, i % perPage;
    ItemPageStart(i, perPage);
    if n < q + 1 {
      PageStartMono(n + 1, q + 1, perPage);
    }
    var p := Paginate(s, perPage, Number(q + 1));
    assert p.number == q + 1;
  }

  /** A feed with at least a page's worth of items fills its first page. */
  lemma FirstPageFull<T>(s: seq<T>, perPage: nat)
    requires perPage > 0 && |s| >= perPage
    ensures |Paginate(s, perPage, Absent).items| == perPage
  {
  }

  /** Every item of a feed is shown on some page: the one its position says. */
  lemma ItemShown<T>(s: seq<T>, perPage: nat, x: T) returns (k: int)
    requires perPage > 0 && x in s
    ensures x in Paginate(s, perPage, Number(k)).items
  {
    var i :| 0 <= i < |s| && s[i] == x;
    ItemOnItsPage(s, perPage, i);
    k := i / perPage + 1;
  }
}
