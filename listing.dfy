/** `listCases`: filter the stored cases by status and category, keeping
    their insertion order, then cut out one page. */
module Listing {
  import opened Wrappers
  import opened Cases

  const DefaultPageSize: int := 20
  const DefaultPage: int := 1

  /** `ListParams`; `page` and `pageSize` are integers here. */
  datatype ListParams = ListParams(
    status: Option<CaseStatus>,
    category: Option<Category>,
    page: Option<int>,
    pageSize: Option<int>)

  /** The object `listCases` returns. */
  datatype CasePage = CasePage(items: seq<CrmCase>, total: nat, page: int, pageSize: int)

  function Max(a: int, b: int): int {
    if a < b then b else a
  }

  function Min(a: int, b: int): int {
    if a < b then a else b
  }

  /** Whether a case passes every filter that is given. */
  predicate MatchesFilters(c: CrmCase, params: ListParams) {
    && (params.status.Some? ==> c.status == params.status.value)
    && (params.category.Some? ==> c.category == params.category.value)
  }

  /** The reference filter: the cases that pass every given filter, in the
      order they were stored. */
  function Select(cs: seq<CrmCase>, params: ListParams): (r: seq<CrmCase>)
    ensures |r| <= |cs|
    ensures forall c :: c in r <==> c in cs && MatchesFilters(c, params)
  {
    if cs == [] then []
    else (if MatchesFilters(cs[0], params) then [cs[0]] else []) + Select(cs[1..], params)
  }

  /** `filter(c => c.status === status)`. */
  function WithStatus(cs: seq<CrmCase>, status: CaseStatus): (r: seq<CrmCase>)
    ensures forall c :: c in r <==> c in cs && c.status == status
  {
    if cs == [] then []
    else (if cs[0].status == status then [cs[0]] else []) + WithStatus(cs[1..], status)
  }

  /** `filter(c => c.category === category)`. */
  function WithCategory(cs: seq<CrmCase>, category: Category): (r: seq<CrmCase>)
    ensures forall c :: c in r <==> c in cs && c.category == category
  {
    if cs == [] then []
    else (if cs[0].category == category then [cs[0]] else []) + WithCategory(cs[1..], category)
  }

  /** The two filter steps of `listCases`, each applied only when its
      parameter is given. */
  function Filtered(cs: seq<CrmCase>, params: ListParams): seq<CrmCase> {
    var byStatus := if params.status.Some? then WithStatus(cs, params.status.value) else cs;
    if params.category.Some? then WithCategory(byStatus, params.category.value) else byStatus
  }

  /** `Array.prototype.slice(start, end)` for non-negative arguments: the
      end is cut back to the length, and a start at or past it gives
      nothing. */
  function Slice<T>(s: seq<T>, start: nat, end: nat): (r: seq<T>)
    ensures start < Min(end, |s|) ==> r == s[start..Min(end, |s|)]
    ensures start >= Min(end, |s|) ==> r == []
  {
    var e := Min(end, |s|);
    if start < e then s[start..e] else []
  }

  /** The offset of the first item of a page, `(page - 1) * pageSize`. */
  function PageStart(page: int, pageSize: int): (start: nat)
    requires page >= 1 && pageSize >= 1
  {
    (page - 1) * pageSize
  }

  /** One page cut out of `s` holds at most `pageSize` items, is empty once
      its start is at or past the end, and otherwise is the run of `s` from
      the start. */
  lemma PageOfSlice<T>(s: seq<T>, start: nat, pageSize: int)
    requires pageSize >= 1
    ensures |Slice(s, start, start + pageSize)| <= pageSize
    ensures start >= |s| ==> Slice(s, start, start + pageSize) == []
    ensures start < |s| ==> Slice(s, start, start + pageSize) == s[start..Min(start + pageSize, |s|)]
  {
  }

  /** `listCases` over the store `cs`. */
  function ListCases(cs: seq<CrmCase>, params: ListParams): (res: CasePage)
    ensures res.pageSize == Max(1, params.pageSize.GetOr(DefaultPageSize)) && res.pageSize >= 1
    ensures res.page == Max(1, params.page.GetOr(DefaultPage)) && res.page >= 1
    ensures res.total == |Select(cs, params)|
    ensures |res.items| <= res.pageSize
    ensures PageStart(res.page, res.pageSize) >= res.total ==> res.items == []
    ensures var start := PageStart(res.page, res.pageSize);
      start < res.total ==>
        res.items == Select(cs, params)[start..Min(start + res.pageSize, res.total)]
    ensures forall c :: c in res.items ==> c in cs && MatchesFilters(c, params)
  {
    var pageSize := Max(1, params.pageSize.GetOr(DefaultPageSize));
    var page := Max(1, params.page.GetOr(DefaultPage));
    var filtered := Filtered(cs, params);
    FilteredIsSelect(cs, params);
    var start := PageStart(page, pageSize);
    PageOfSlice(filtered, start, pageSize);
    CasePage(Slice(filtered, start, start + pageSize), |filtered|, page, pageSize)
  }

  /** Keeping by status and then by category is keeping by both. */
  lemma {:induction false} WithCategoryOfStatus(cs: seq<CrmCase>, status: CaseStatus, category: Category)
    ensures WithCategory(WithStatus(cs, status), category)
         == Select(cs, ListParams(Some(status), Some(category), None, None))
  {
    var params := ListParams(Some(status), Some(category), None, None);
    if cs != [] {
      WithCategoryOfStatus(cs[1..], status, category);
      WithCategoryAppend(if cs[0].status == status then [cs[0]] else [], WithStatus(cs[1..], status), category);
    }
  }

  lemma {:induction false} WithCategoryAppend(a: seq<CrmCase>, b: seq<CrmCase>, category: Category)
    ensures WithCategory(a + b, category) == WithCategory(a, category) + WithCategory(b, category)
  {
    if a == [] {
      assert a + b == b;
    } else {
      assert (a + b)[1..] == a[1..] + b;
      WithCategoryAppend(a[1..], b, category);
    }
  }

  lemma {:induction false} WithStatusIsSelect(cs: seq<CrmCase>, status: CaseStatus, page: Option<int>, pageSize: Option<int>)
    ensures WithStatus(cs, status) == Select(cs, ListParams(Some(status), None, page, pageSize))
  {
    if cs != [] {
      WithStatusIsSelect(cs[1..], status, page, pageSize);
    }
  }

  lemma {:induction false} WithCategoryIsSelect(cs: seq<CrmCase>, category: Category, page: Option<int>, pageSize: Option<int>)
    ensures WithCategory(cs, category) == Select(cs, ListParams(None, Some(category), page, pageSize))
  {
    if cs != [] {
      WithCategoryIsSelect(cs[1..], category, page, pageSize);
    }
  }

  lemma {:induction false} SelectNoFilter(cs: seq<CrmCase>, page: Option<int>, pageSize: Option<int>)
    ensures Select(cs, ListParams(None, None, page, pageSize)) == cs
  {
    if cs != [] {
      SelectNoFilter(cs[1..], page, pageSize);
    }
  }

  /** Which cases pass does not depend on the page parameters. */
  lemma {:induction false} SelectIgnoresPaging(cs: seq<CrmCase>, params: ListParams)
    ensures Select(cs, params) == Select(cs, ListParams(params.status, params.category, None, None))
  {
    if cs != [] {
      SelectIgnoresPaging(cs[1..], params);
    }
  }

  /** The two filter steps of `listCases` keep exactly the cases that pass
      every given filter, in store order. */
  lemma FilteredIsSelect(cs: seq<CrmCase>, params: ListParams)
    ensures Filtered(cs, params) == Select(cs, params)
  {
    SelectIgnoresPaging(cs, params);
    match (params.status, params.category)
    case (None, None) =>
      SelectNoFilter(cs, None, None);
    case (Some(s), None) =>
      WithStatusIsSelect(cs, s, None, None);
    case (None, Some(k)) =>
      WithCategoryIsSelect(cs, k, None, None);
    case (Some(s), Some(k)) =>
      WithCategoryOfStatus(cs, s, k);
  }

  /** Filtering keeps insertion order: a case added at the end of the store
      appears at the end of the selection, or not at all. */
  lemma {:induction false} SelectAppend(cs: seq<CrmCase>, c: CrmCase, params: ListParams)
    ensures Select(cs + [c], params)
         == Select(cs, params) + (if MatchesFilters(c, params) then [c] else [])
  {
    if cs == [] {
      assert cs + [c] == [c];
    } else {
      assert (cs + [c])[1..] == cs[1..] + [c];
      SelectAppend(cs[1..], c, params);
    }
  }

  /** The `k`-th item overall is item `k % pageSize` of page
      `k / pageSize + 1`. */
  lemma DivideIntoPages(k: nat, pageSize: int)
    requires pageSize >= 1
    ensures k / pageSize >= 0
    ensures PageStart(k / pageSize + 1, pageSize) + k % pageSize == k
    ensures k % pageSize < pageSize
  {
  }

  /** Item `j` of a page is the selected case `j` places after the page's
      start. */
  lemma PageItem(sel: seq<CrmCase>, res: CasePage, j: nat)
    requires res.page >= 1 && res.pageSize >= 1 && j < res.pageSize
    requires var start := PageStart(res.page, res.pageSize);
      start + j < |sel| && res.items == sel[start..Min(start + res.pageSize, |sel|)]
    ensures j < |res.items|
    ensures res.items[j] == sel[PageStart(res.page, res.pageSize) + j]
  {
  }

  /** Pages tile the selection: its `k`-th case is item `k % pageSize` of
      page `k / pageSize + 1`. */
  lemma PageOfIndex(cs: seq<CrmCase>, status: Option<CaseStatus>, category: Option<Category>, pageSize: int, k: nat)
    requires pageSize >= 1
    requires k < |Select(cs, ListParams(status, category, None, None))|
    ensures var res := ListCases(cs, ListParams(status, category, Some(k / pageSize + 1), Some(pageSize)));
      k % pageSize < |res.items|
      && res.items[k % pageSize] == Select(cs, ListParams(status, category, None, None))[k]
  {
    DivideIntoPages(k, pageSize);
    var page, j := k / pageSize + 1, k % pageSize;
    var params := ListParams(status, category, Some(page), Some(pageSize));
    SelectIgnoresPaging(cs, params);
    var res := ListCases(cs, params);
    assert res.page == page && res.pageSize == pageSize;
    PageItem(Select(cs, params), res, j);
  }
}
