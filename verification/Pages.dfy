/** The paged view of the catalogue: the two-pass page computation, the clamping of the current page and the
    row-filling loop of view_app_grid (ui/views/app_grid.c), with the page trigger of ui/main.c. */
module Pages {
  import opened Bytes
  import opened Grid

  datatype Cell = Card(index: nat) | Fill

  /** What is on the screen: the empty state, or rows of cells with the pagination bar or without. */
  datatype View = EmptyState | AppGrid(rows: seq<seq<Cell>>, page: int, totalPages: int, pagination: bool)

  /** A fetch of one server page of a category, or of everything; pages are numbered from 1. */
  datatype Request = Request(category: Option<string>, page: int, pageSize: int)

  /** What arrives for a request: the keyword or the category it was made for comes back with it. */
  datatype Response<+T> = Response(isSearch: bool, data: Option<string>, page: int, list: seq<T>, total: nat)

  // the sections and the category tabs with a category of their own, as numbered in ui/store_state.h
  const NAV_CAT_SYSTEM := 5
  const NAV_CAT_DEV := 6
  const CAT_DEV := 3
  const CAT_GAMES := 6
  const CAT_OFFICE := 7
  const CAT_SYSTEM := 8

  function CategoryByNav(nav: int): Option<string> {
    if nav == NAV_RECOMMENDED then Some("__welcome__")
    else if nav == NAV_CAT_OFFICE then Some("07")
    else if nav == NAV_CAT_SYSTEM then Some("08")
    else if nav == NAV_CAT_DEV then Some("03")
    else if nav == NAV_CAT_GAMES then Some("06")
    else None
  }

  function CategoryByTab(tab: int): Option<string> {
    if tab == CAT_OFFICE then Some("07")
    else if tab == CAT_SYSTEM then Some("08")
    else if tab == CAT_DEV then Some("03")
    else if tab == CAT_GAMES then Some("06")
    else None
  }

  /** current_remote_category. */
  function RemoteCategory(nav: int, tab: int): Option<string> {
    if nav == NAV_RECOMMENDED then Some("__welcome__")
    else if nav == NAV_ALL then CategoryByTab(tab)
    else if nav >= NAV_CAT_OFFICE && nav <= NAV_CAT_GAMES then CategoryByNav(nav)
    else None
  }

  /** The category that each section asks for; the section of all packages asks for that of its tab. */
  lemma CategoryOfSection(nav: int, tab: int)
    ensures RemoteCategory(0, tab) == Some("__welcome__") && RemoteCategory(4, tab) == Some("07")
            && RemoteCategory(5, tab) == Some("08") && RemoteCategory(6, tab) == Some("03")
            && RemoteCategory(7, tab) == Some("06")
    ensures RemoteCategory(1, 7) == Some("07") && RemoteCategory(1, 8) == Some("08")
            && RemoteCategory(1, 3) == Some("03") && RemoteCategory(1, 6) == Some("06")
    ensures nav !in {0, 1, 4, 5, 6, 7} || (nav == 1 && tab !in {3, 6, 7, 8}) ==> RemoteCategory(nav, tab) == None
  {
  }

  datatype Layout = Layout(spec: AppGridSpec, totalPages: int)

  function Min(a: int, b: int): int { if a < b then a else b }

  function PageCount(total: int, perPage: int): (n: int)
    requires perPage > 0
    ensures n >= 1
  {
    var n := CDiv(total + perPage - 1, perPage);
    if n < 1 then 1 else n
  }

  lemma SpecPositive(w: Window, s: Spacing, reserve: int, pagination: bool)
    ensures var spec := SpecOf(w, s, reserve, pagination);
            spec.cols > 0 && spec.rows > 0 && spec.itemsPerPage == spec.cols * spec.rows > 0
  {
    hide SpecCols, Rows, CardWidth;
  }

  /** The items a page can hold in either pass. */
  function PerPage(w: Window, s: Spacing, nav: int, pagination: bool): (n: int)
    ensures n > 0
  {
    SpecPositive(w, s, ReserveFor(nav), pagination);
    SpecOf(w, s, ReserveFor(nav), pagination).itemsPerPage
  }

  /** The layout the two passes settle on for `total` items: with the pagination bar if the items do not fit
      one page that has it, else without. */
  function LayoutFor(w: Window, s: Spacing, nav: int, total: int): Layout {
    var pagination := total > PerPage(w, s, nav, true);
    Layout(SpecOf(w, s, ReserveFor(nav), pagination), PageCount(total, PerPage(w, s, nav, pagination)))
  }

  lemma RowsGrow(h: int, k: int, gap: nat)
    requires h <= k
    ensures Rows(h, gap) <= Rows(k, gap)
  {
    CDivGrows(h + gap, k + gap, CARD_H + gap);
    hide CDiv;
  }

  lemma CDivGrows(a: int, b: int, d: int)
    requires a <= b && d > 0
    ensures CDiv(a, d) <= CDiv(b, d)
  {
    if a >= 0 {
      QuotientsGrow(a, b, d);
    } else if b >= 0 {
      LeastQuotient(-a, d, -a / d, 0);
      LeastQuotient(b, d, b / d, 0);
    } else {
      QuotientsGrow(-b, -a, d);
    }
  }

  lemma QuotientsGrow(a: int, b: int, d: int)
    requires 0 <= a <= b && d > 0
    ensures a / d <= b / d
  {
    LeastQuotient(b, d, b / d, a / d);
  }

  /** Without the pagination bar a page holds no fewer items. */
  lemma BarTakesRoom(w: Window, s: Spacing, nav: int)
    ensures PerPage(w, s, nav, true) <= PerPage(w, s, nav, false)
  {
    hide Rows, SpecCols, CardWidth;
    var reserve := ReserveFor(nav);
    RowsGrow(ContentHeight(w, s, reserve, true), ContentHeight(w, s, reserve, false), s.gap);
    var spec, wider := SpecOf(w, s, reserve, true), SpecOf(w, s, reserve, false);
    assert spec.cols == wider.cols && spec.rows <= wider.rows;
    MoreRows(spec.cols, spec.rows, wider.rows);
  }

  lemma MoreRows(cols: nat, rows: int, more: int)
    ensures rows <= more ==> cols * rows <= cols * more
  {
  }

  lemma CeilingFacts(total: int, d: int, q: int)
    requires d > 0 && total >= 1 && d * q <= total + d - 1 < d * q + d
    ensures q >= 1 && d * (q - 1) < total <= d * q
    ensures q == 1 <==> total <= d
  {
    LeastQuotient(total + d - 1, d, q, 1);
    assert d * (q - 1) == d * q - d;
    if q >= 2 {
      MoreRows(d, 1, q - 1);
    }
  }

  lemma PageCountIsCeiling(total: int, perPage: int)
    requires perPage > 0
    ensures PageCount(total, perPage) == 1 <==> total <= perPage
    ensures total >= 1 ==> perPage * (PageCount(total, perPage) - 1) < total <= perPage * PageCount(total, perPage)
  {
    if total >= 1 {
      var t := total + perPage - 1;
      var q := t / perPage;
      assert t == perPage * q + t % perPage;
      CeilingFacts(total, perPage, q);
    } else {
      NoPages(total, perPage);
    }
  }

  lemma NoPages(total: int, perPage: int)
    requires perPage > 0 && total <= 0
    ensures PageCount(total, perPage) == 1
  {
    var t := total + perPage - 1;
    if t >= 0 {
      assert t / perPage == 0;
    } else {
      assert -t / perPage >= 0;
    }
  }

  /** The second pass never turns pagination back on: the bar is shown exactly when there is more than one page. */
  lemma SecondPassStays(w: Window, s: Spacing, nav: int, total: int)
    ensures LayoutFor(w, s, nav, total).totalPages > 1 <==> total > PerPage(w, s, nav, true)
  {
    hide PerPage, PageCount;
    BarTakesRoom(w, s, nav);
    PageCountIsCeiling(total, PerPage(w, s, nav, true));
    PageCountIsCeiling(total, PerPage(w, s, nav, false));
  }

  /** The layout on widths and heights alone: the grid fills the height left without the bar, or with it if there is
      more than one page, and the pages are as few as hold all items. */
  lemma LayoutOnWidths(w: Window, s: Spacing, nav: int, total: int)
    ensures var layout := LayoutFor(w, s, nav, total);
            var spec, n := layout.spec, layout.totalPages;
            var width := Room(w.width - 180 - 2 * s.padding, 1);
            var reserve := if nav == 0 || nav == 1 || 4 <= nav <= 7 then 44 else 0;
            var height := Room(w.height - 52 - reserve - 2 * s.padding - (if n > 1 then 40 else 0), 88);
            FillsHeight(height, s.gap, spec.rows) && spec.itemsPerPage == spec.cols * spec.rows
            && (if AllTooWide(width, s.gap) then spec.cols == 1 && spec.cardW == width
                else BestColumns(width, s.gap, spec.cols, spec.cardW))
            && (if total < 1 then n == 1
                else n >= 1 && spec.itemsPerPage * (n - 1) < total <= spec.itemsPerPage * n)
  {
    hide PageCount, SpecOf, FillsHeight, AllTooWide, BestColumns;
    var pagination := total > PerPage(w, s, nav, true);
    SecondPassStays(w, s, nav, total);
    GridOnWidths(w, s, ReserveFor(nav), pagination);
    PageCountIsCeiling(total, PerPage(w, s, nav, pagination));
  }

  // ---------------------------------------------------------------- rows of cells

  function CellFor(i: nat, end: nat): Cell { if i < end then Card(i) else Fill }

  ghost predicate IsRow(row: seq<Cell>, base: nat, cols: nat, end: nat) {
    |row| == cols && forall c :: 0 <= c < cols ==> row[c] == CellFor(base + c, end)
  }

  ghost predicate RowsInOrder(rows: seq<seq<Cell>>, cols: nat, end: nat) {
    forall r: nat :: r < |rows| ==> IsRow(rows[r], cols * r, cols, end)
  }

  /** `rows` deals the items 0..end out row by row, `cols` to a row, and fills up the last row. */
  ghost predicate Deals(rows: seq<seq<Cell>>, cols: nat, end: nat) {
    end <= cols * |rows| < end + cols && RowsInOrder(rows, cols, end)
  }

  /** Item i stands in one cell, and in no other. */
  lemma EachItemOnce(rows: seq<seq<Cell>>, cols: nat, end: nat, i: nat)
    requires cols > 0 && Deals(rows, cols, end) && i < end
    ensures i / cols < |rows| && rows[i / cols][i % cols] == Card(i)
    ensures forall r: nat, c: nat :: r < |rows| && c < |rows[r]| && rows[r][c] == Card(i) ==>
              r == i / cols && c == i % cols
  {
    hide Deals;
    assert i == cols * (i / cols) + i % cols;
    ItemAt(rows, cols, end, i, i / cols, i % cols);
  }

  lemma ItemAt(rows: seq<seq<Cell>>, cols: nat, end: nat, i: nat, q: nat, m: nat)
    requires cols > 0 && Deals(rows, cols, end) && i < end && m < cols && i == cols * q + m
    ensures q < |rows| && m < |rows[q]| && rows[q][m] == Card(i)
    ensures forall r: nat, c: nat :: r < |rows| && c < |rows[r]| && rows[r][c] == Card(i) ==> r == q && c == m
  {
    if q >= |rows| {
      MoreRows(cols, |rows|, q);
    }
    hide IsRow;
    CellAt(rows[q], cols * q, cols, end, m);
    forall r: nat, c: nat | r < |rows| && c < |rows[r]| && rows[r][c] == Card(i)
      ensures r == q && c == m
    {
      CellAt(rows[r], cols * r, cols, end, c);
      SameCell(cols, r, c, q, m);
    }
  }

  lemma CellAt(row: seq<Cell>, base: nat, cols: nat, end: nat, c: nat)
    requires IsRow(row, base, cols, end)
    ensures |row| == cols && (c < cols ==> row[c] == CellFor(base + c, end))
  {
  }

  lemma SameCell(cols: nat, r: nat, c: nat, q: nat, m: nat)
    requires c < cols && m < cols && cols * r + c == cols * q + m
    ensures r == q && c == m
  {
    if r < q {
      MoreRows(cols, r + 1, q);
    } else if q < r {
      MoreRows(cols, q + 1, r);
    }
  }

  /** Items that fit the grid take no more rows than it has. */
  lemma RowsSuffice(rows: seq<seq<Cell>>, cols: nat, end: nat, limit: nat)
    requires Deals(rows, cols, end) && end <= cols * limit
    ensures |rows| <= limit
  {
    if |rows| > limit {
      MoreRows(cols, limit + 1, |rows|);
    }
  }

  // ---------------------------------------------------------------- the store

  class Store<T> {
    var window: Window
    var spacing: Spacing
    var activeNav: int
    var activeCat: int
    var searchBuf: string
    var searchResults: seq<T>
    var remoteTotal: int
    var currentPage: int
    var lastPageSize: int

    constructor (window: Window, spacing: Spacing)
      ensures this.window == window && this.spacing == spacing && activeNav == NAV_RECOMMENDED
      ensures searchResults == [] && remoteTotal == 0 && currentPage == 0 && lastPageSize == 0
    {
      this.window, this.spacing, activeNav := window, spacing, NAV_RECOMMENDED;
      activeCat, searchBuf := 0, "";
      searchResults, remoteTotal, currentPage, lastPageSize := [], 0, 0, 0;
    }

    /** The number of items paged over: the server's count, or what is at hand if the server gave none. */
    function Total(): int
      reads this
    {
      if remoteTotal > 0 then remoteTotal else |searchResults|
    }

    /** The two passes of view_app_grid. */
    method TwoPasses(count: nat) returns (spec: AppGridSpec, totalPages: int)
      requires count == |searchResults| > 0
      ensures Layout(spec, totalPages) == LayoutFor(window, spacing, activeNav, Total())
      ensures spec.cols > 0 && spec.itemsPerPage > 0 && totalPages > 0
    {
      hide Rows, SpecCols, CardWidth, PageCount;
      var reserve := 0;
      if activeNav == NAV_ALL || activeNav == NAV_RECOMMENDED
         || (activeNav >= NAV_CAT_OFFICE && activeNav <= NAV_CAT_GAMES) {
        reserve := reserve + CONTENT_HEADER_H;
      }
      assert reserve == ReserveFor(activeNav);
      hide ReserveFor, SpecOf;
      spec := ComputeSpec(window, spacing, reserve, true);
      SpecPositive(window, spacing, reserve, true);
      SpecPositive(window, spacing, reserve, false);
      PageCountIsCeiling(Total(), PerPage(window, spacing, activeNav, true));
      totalPages := CountPages(if remoteTotal > 0 then remoteTotal else count, spec.itemsPerPage);
      if !(totalPages > 1) {
        spec := ComputeSpec(window, spacing, reserve, false);
        totalPages := CountPages(if remoteTotal > 0 then remoteTotal else count, spec.itemsPerPage);
      }
    }

    /** view_app_grid, when nothing is loading. */
    method ViewAppGrid() returns (view: View)
      modifies `currentPage
      ensures searchResults == [] ==> view == EmptyState && currentPage == old(currentPage)
      ensures searchResults != [] ==>
                var layout := LayoutFor(window, spacing, activeNav, Total());
                view.AppGrid?
                && Deals(view.rows, layout.spec.cols, Min(|searchResults|, layout.spec.itemsPerPage))
                && view.totalPages == layout.totalPages && view.pagination == (layout.totalPages > 1)
                && view.page == currentPage == Clamp(old(currentPage), 0, layout.totalPages - 1)
    {
      hide LayoutFor, Deals;
      var count := |searchResults|;
      if count == 0 {
        return EmptyState;
      }
      var spec, totalPages := TwoPasses(count);
      if currentPage >= totalPages {
        currentPage := totalPages - 1;
      }
      if currentPage < 0 {
        currentPage := 0;
      }
      var end := count;
      if end > spec.itemsPerPage {
        end := spec.itemsPerPage;
      }
      var rows := FillRows(spec.cols, end);
      view := AppGrid(rows, currentPage, totalPages, totalPages > 1);
    }

    /** start_remote_fetch: the request that is sent. */
    method StartRemoteFetch(category: Option<string>, page: int) returns (request: Request)
      modifies `lastPageSize
      ensures request == Request(category, page, ItemsPerPage(window, spacing, activeNav, true))
      ensures lastPageSize == request.pageSize
    {
      var size := CurrentItemsPerPage(window, spacing, activeNav, true);
      lastPageSize := size;
      request := Request(category, page, size);
    }

    /** The response is for what the store shows now: the keyword or the category, and the page. */
    predicate Awaited(response: Response<T>)
      reads this
    {
      response.data == (if response.isSearch then Some(searchBuf) else RemoteCategory(activeNav, activeCat))
      && response.page == currentPage + 1
    }

    /** A page of the server has arrived; it is dropped if the store has moved on since. */
    method Receive(response: Response<T>) returns (matches: bool)
      modifies `searchResults, `remoteTotal
      ensures matches <==> Awaited(response)
      ensures searchResults == if matches then response.list else old(searchResults)
      ensures remoteTotal == if matches then response.total else old(remoteTotal)
    {
      if response.isSearch {
        matches := response.data.Some? && response.data.value == searchBuf;
      } else {
        var currentCat := RemoteCategory(activeNav, activeCat);
        matches := (response.data.None? && currentCat.None?)
                   || (response.data.Some? && currentCat.Some? && response.data.value == currentCat.value);
      }
      if matches && currentPage != response.page - 1 {
        matches := false;
      }
      if matches {
        searchResults, remoteTotal := response.list, response.total;
      }
    }

    /** store_ui_trigger_remote_page. */
    method TriggerRemotePage(pageIdx: int) returns (requests: seq<Request>)
      modifies `currentPage, `lastPageSize
      ensures pageIdx < 0 ==> requests == [] && currentPage == old(currentPage) && lastPageSize == old(lastPageSize)
      ensures pageIdx >= 0 ==>
                requests == [Request(RemoteCategory(activeNav, activeCat), currentPage + 1, lastPageSize)]
                && currentPage == pageIdx && lastPageSize == ItemsPerPage(window, spacing, activeNav, true)
    {
      if pageIdx < 0 {
        return [];
      }
      currentPage := pageIdx;
      var request := StartRemoteFetch(RemoteCategory(activeNav, activeCat), pageIdx + 1);
      requests := [request];
    }

    /** The two buttons of the pagination bar, as pressed on the page last shown. */
    method PressButton(view: View, next: bool) returns (requests: seq<Request>)
      requires view.AppGrid? && view.page == currentPage && 0 <= currentPage < view.totalPages
      modifies `currentPage, `lastPageSize
      ensures 0 <= currentPage < view.totalPages
      ensures currentPage == Clamp(old(currentPage) + (if next then 1 else -1), 0, view.totalPages - 1)
      ensures requests == if remoteTotal > 0 && currentPage != old(currentPage)
                          then [Request(RemoteCategory(activeNav, activeCat), currentPage + 1,
                                        ItemsPerPage(window, spacing, activeNav, true))]
                          else []
    {
      requests := [];
      if next {
        var nextDisabled := currentPage >= view.totalPages - 1;
        if !nextDisabled {
          if remoteTotal > 0 {
            requests := TriggerRemotePage(currentPage + 1);
          } else {
            currentPage := currentPage + 1;
          }
        }
      } else {
        var prevDisabled := currentPage <= 0;
        if !prevDisabled {
          if remoteTotal > 0 {
            requests := TriggerRemotePage(currentPage - 1);
          } else {
            currentPage := currentPage - 1;
          }
        }
      }
    }
  }

  method CountPages(total: int, perPage: int) returns (n: int)
    requires perPage > 0
    ensures n == PageCount(total, perPage)
  {
    n := CDiv(total + perPage - 1, perPage);
    if n < 1 {
      n := 1;
    }
  }

  /** The row-filling loop. */
  method FillRows(cols: int, end: nat) returns (rows: seq<seq<Cell>>)
    requires cols > 0
    ensures Deals(rows, cols, end)
  {
    rows := [];
    var i := 0;
    while i < end
      invariant i == Min(end, cols * |rows|) && end + cols > cols * |rows|
      invariant forall r: nat :: r < |rows| ==> IsRow(rows[r], cols * r, cols, end)
    {
      ghost var base := i;
      var row, col := [], 0;
      while col < cols && i < end
        invariant 0 <= col <= cols && i == base + col <= end && IsRow(row, base, col, end)
      {
        row := row + [Card(i)];
        col, i := col + 1, i + 1;
      }
      while col < cols
        invariant i <= base + col && (col < cols ==> i == end) && col <= cols && IsRow(row, base, col, end)
      {
        row := row + [Fill];
        col := col + 1;
      }
      assert cols * (|rows| + 1) == cols * |rows| + cols;
      rows := rows + [row];
    }
  }

  // ---------------------------------------------------------------- the whole catalogue

  /** The page a server returns when it cuts the catalogue as requested. */
  function Slice<T>(catalogue: seq<T>, page: nat, size: nat): seq<T> {
    catalogue[Min(|catalogue|, size * page)..Min(|catalogue|, size * page + size)]
  }

  /** Of each of the server's pages, the screen shows at most `limit` items. */
  ghost function Shown<T>(catalogue: seq<T>, page: nat, size: nat, limit: nat): seq<T> {
    var list := Slice(catalogue, page, size);
    list[..Min(|list|, limit)]
  }

  /** The screens of the first n pages one after the other. */
  ghost function AllShown<T>(catalogue: seq<T>, size: nat, limit: nat, n: nat): seq<T> {
    if n == 0 then [] else AllShown(catalogue, size, limit, n - 1) + Shown(catalogue, n - 1, size, limit)
  }

  /** If the screen holds what the server sends, the screens are consecutive pieces of the catalogue. */
  lemma {:induction false} ScreensAreConsecutive<T>(catalogue: seq<T>, size: nat, n: nat)
    ensures AllShown(catalogue, size, size, n) == catalogue[..Min(|catalogue|, size * n)]
  {
    hide Shown, Slice;
    if n > 0 {
      ScreensAreConsecutive(catalogue, size, n - 1);
      assert size * n == size * (n - 1) + size;
      NextScreen(catalogue, size, n - 1);
    }
  }

  lemma NextScreen<T>(catalogue: seq<T>, size: nat, page: nat)
    ensures catalogue[..Min(|catalogue|, size * page)] + Shown(catalogue, page, size, size)
            == catalogue[..Min(|catalogue|, size * page + size)]
  {
    WholeSlice(catalogue, page, size);
    hide Shown, Slice;
    JoinSlices(catalogue, Min(|catalogue|, size * page), Min(|catalogue|, size * page + size));
  }

  lemma WholeSlice<T>(catalogue: seq<T>, page: nat, size: nat)
    ensures Shown(catalogue, page, size, size) == Slice(catalogue, page, size)
    ensures Slice(catalogue, page, size) ==
            catalogue[Min(|catalogue|, size * page)..Min(|catalogue|, size * page + size)]
  {
    var list := Slice(catalogue, page, size);
    assert |list| <= size && list[..|list|] == list;
  }

  lemma JoinSlices<T>(s: seq<T>, i: nat, j: nat)
    ensures i <= j <= |s| ==> s[..i] + s[i..j] == s[..j]
  {
  }

  lemma ScreenLength<T>(catalogue: seq<T>, page: nat, size: nat, limit: nat)
    ensures var from, to := Min(|catalogue|, size * page), Min(|catalogue|, size * page + size);
            |Shown(catalogue, page, size, limit)| == Min(to - from, limit)
  {
  }

  /** If it holds less, what the first screen drops is missing for good. */
  lemma {:induction false} DroppedForGood<T>(catalogue: seq<T>, size: nat, limit: nat, n: nat)
    requires n >= 1 && limit <= size
    ensures |AllShown(catalogue, size, limit, n)| + Min(size, |catalogue|) <=
            Min(|catalogue|, size * n) + Min(limit, |catalogue|)
  {
    hide Shown;
    assert size * n == size * (n - 1) + size;
    ScreenLength(catalogue, n - 1, size, limit);
    if n > 1 {
      DroppedForGood(catalogue, size, limit, n - 1);
    } else {
      assert AllShown(catalogue, size, limit, 0) == [];
    }
  }

  lemma {:induction false} OneScreen<T>(catalogue: seq<T>, size: nat, limit: nat)
    requires |catalogue| <= size && |catalogue| <= limit
    ensures AllShown(catalogue, size, limit, 1) == catalogue
  {
    assert AllShown(catalogue, size, limit, 0) == [];
    assert Shown(catalogue, 0, size, limit) == catalogue;
  }

  lemma ServerPageIsNoSmaller(w: Window, s: Spacing, nav: int)
    ensures ItemsPerPage(w, s, nav, true) >= PerPage(w, s, nav, true)
  {
    hide Score, CardWidth, MaxCols, Rows, BestCols, ContentWidth, ContentHeight;
    var width := ContentWidth(w, s);
    var rows := Rows(ContentHeight(w, s, ReserveFor(nav), true), s.gap);
    var c, d := BestCols(width, s.gap, MaxCols(width, s.gap)), SpecCols(width, s.gap, MaxCols(width, s.gap));
    MoreRows(rows, d, c);
  }

  lemma SizesPositive(w: Window, s: Spacing, nav: int, total: int)
    ensures ItemsPerPage(w, s, nav, true) > 0
    ensures var layout := LayoutFor(w, s, nav, total);
            layout.spec.cols > 0 && layout.spec.itemsPerPage > 0 && layout.totalPages > 0
  {
    hide ItemsPerPage, PageCount, SpecOf;
    ServerPageIsNoSmaller(w, s, nav);
    SpecPositive(w, s, ReserveFor(nav), true);
    SpecPositive(w, s, ReserveFor(nav), false);
    var n := PageCount(total, PerPage(w, s, nav, total > PerPage(w, s, nav, true)));
  }

  /** The page size that is requested of the server. */
  function ServerSize(w: Window, s: Spacing, nav: int): (n: nat)
    ensures n == ItemsPerPage(w, s, nav, true) > 0
  {
    SizesPositive(w, s, nav, 0);
    ItemsPerPage(w, s, nav, true)
  }

  /** How many items of a page are shown, and on how many pages. */
  function ScreenSize(w: Window, s: Spacing, nav: int, total: int): (n: nat)
    ensures n == LayoutFor(w, s, nav, total).spec.itemsPerPage > 0
  {
    SizesPositive(w, s, nav, total);
    LayoutFor(w, s, nav, total).spec.itemsPerPage
  }

  function PagesFor(w: Window, s: Spacing, nav: int, total: int): (n: nat)
    ensures n == LayoutFor(w, s, nav, total).totalPages > 0
  {
    SizesPositive(w, s, nav, total);
    LayoutFor(w, s, nav, total).totalPages
  }

  /** The screens of all pages of the catalogue. */
  ghost function Screens<T>(catalogue: seq<T>, w: Window, s: Spacing, nav: int): seq<T> {
    var total := |catalogue|;
    AllShown(catalogue, ServerSize(w, s, nav), ScreenSize(w, s, nav, total), PagesFor(w, s, nav, total))
  }

  /** Browsing with an unchanged window, from the first page to the last: the screens partition the catalogue in
      order exactly when it fits one page or the two page sizes agree. */
  lemma PagesPartitionCatalogue<T>(catalogue: seq<T>, w: Window, s: Spacing, nav: int)
    ensures Screens(catalogue, w, s, nav) == catalogue
            <==> PagesFor(w, s, nav, |catalogue|) == 1 || SentinelHarmless(w, s)
  {
    hide ItemsPerPage, PageCount, SpecOf, SentinelHarmless, AllShown, ReserveFor, ServerSize, ScreenSize, PagesFor;
    var size, limit := ServerSize(w, s, nav), PerPage(w, s, nav, true);
    var screen, pages := ScreenSize(w, s, nav, |catalogue|), PagesFor(w, s, nav, |catalogue|);
    ServerPageIsNoSmaller(w, s, nav);
    BarTakesRoom(w, s, nav);
    SecondPassStays(w, s, nav, |catalogue|);
    PageCountIsCeiling(|catalogue|, screen);
    PageSizesAgree(w, s, nav, true);
    if pages == 1 {
      OneScreen(catalogue, size, screen);
    } else if size == limit {
      ScreensAreConsecutive(catalogue, size, pages);
    } else {
      DroppedForGood(catalogue, size, limit, pages);
    }
  }

  /** In a window that wide, every catalogue of more than one page loses items between its pages. */
  lemma WideWindowLosesItems<T>(catalogue: seq<T>, s: Spacing, height: int, nav: int)
    ensures var w := WideWindow(s, height);
            PagesFor(w, s, nav, |catalogue|) > 1 ==> Screens(catalogue, w, s, nav) != catalogue
  {
    hide SentinelHarmless, ServerSize, ScreenSize, PagesFor, Screens, WideWindow;
    SentinelHarms(s, height);
    PagesPartitionCatalogue(catalogue, WideWindow(s, height), s, nav);
  }

  // ---------------------------------------------------------------- browsing

  /** The items of the cards of a row, or of all rows. */
  function RowItems<T>(row: seq<Cell>, list: seq<T>): seq<T> {
    if row == [] then []
    else
      var last := row[|row| - 1];
      RowItems(row[..|row| - 1], list) + if last.Card? && last.index < |list| then [list[last.index]] else []
  }

  function GridItems<T>(rows: seq<seq<Cell>>, list: seq<T>): seq<T> {
    if rows == [] then [] else GridItems(rows[..|rows| - 1], list) + RowItems(rows[|rows| - 1], list)
  }

  /** The items that a view of the list has on the screen, row by row. */
  function ItemsOn<T>(view: View, list: seq<T>): seq<T> {
    if view.EmptyState? then [] else GridItems(view.rows, list)
  }

  lemma {:induction false} RowItemsDealt<T>(row: seq<Cell>, base: nat, cols: nat, end: nat, list: seq<T>)
    requires IsRow(row, base, cols, end) && end <= |list|
    ensures RowItems(row, list) == list[Min(base, end)..Min(base + cols, end)]
    decreases cols
  {
    if cols > 0 {
      assert row[cols - 1] == CellFor(base + (cols - 1), end);
      RowItemsDealt(row[..cols - 1], base, cols - 1, end, list);
    }
  }

  lemma LastRow(rows: seq<seq<Cell>>, cols: nat, end: nat)
    requires rows != [] && RowsInOrder(rows, cols, end)
    ensures var n := |rows| - 1;
            RowsInOrder(rows[..n], cols, end) && IsRow(rows[n], cols * n, cols, end) && cols * |rows| == cols * n + cols
  {
    hide IsRow;
  }

  lemma {:induction false} GridItemsDealt<T>(rows: seq<seq<Cell>>, cols: nat, end: nat, list: seq<T>)
    requires end <= |list| && RowsInOrder(rows, cols, end)
    ensures GridItems(rows, list) == list[..Min(cols * |rows|, end)]
  {
    hide IsRow, RowItems, RowsInOrder;
    if rows != [] {
      var n := |rows| - 1;
      var base: nat := cols * n;
      LastRow(rows, cols, end);
      GridItemsDealt(rows[..n], cols, end, list);
      RowItemsDealt(rows[n], base, cols, end, list);
      JoinSlices(list, Min(base, end), Min(base + cols, end));
    }
  }

  lemma DealtItems<T>(rows: seq<seq<Cell>>, cols: nat, end: nat, list: seq<T>)
    requires Deals(rows, cols, end) && end <= |list|
    ensures GridItems(rows, list) == list[..end]
  {
    hide GridItems, IsRow;
    GridItemsDealt(rows, cols, end, list);
  }

  lemma {:induction false} NothingBehind<T>(catalogue: seq<T>, size: nat, limit: nat, p: nat, n: nat)
    requires p < n && Slice(catalogue, p, size) == [] && size > 0
    ensures AllShown(catalogue, size, limit, n) == AllShown(catalogue, size, limit, p)
  {
    hide AllShown, Shown, Slice;
    AllShownRound(catalogue, size, limit, n - 1);
    EmptySlices(catalogue, size, limit, p, n - 1);
    if p < n - 1 {
      NothingBehind(catalogue, size, limit, p, n - 1);
    }
  }

  lemma AllShownRound<T>(catalogue: seq<T>, size: nat, limit: nat, n: nat)
    ensures AllShown(catalogue, size, limit, n + 1) ==
            AllShown(catalogue, size, limit, n) + Shown(catalogue, n, size, limit)
    ensures AllShown(catalogue, size, limit, 0) == []
  {
  }

  lemma EmptySlices<T>(catalogue: seq<T>, size: nat, limit: nat, p: nat, q: nat)
    requires p <= q && Slice(catalogue, p, size) == [] && size > 0
    ensures Shown(catalogue, q, size, limit) == []
  {
    MoreRows(size, p, q);
  }

  /** The store and the view of it after the slice of page p has arrived, with pages of `size` items on the server
      and at most `limit` on the screen. */
  ghost predicate ShowsPage<T>(store: Store<T>, view: View, catalogue: seq<T>, p: nat, size: nat, limit: nat,
                               pages: int)
    reads store
  {
    && store.searchResults == Slice(catalogue, p, size) && store.remoteTotal == |catalogue|
    && store.currentPage == p < pages
    && (view.EmptyState? <==> store.searchResults == [])
    && (view.AppGrid? ==> view.page == p && view.totalPages == pages)
    && ItemsOn(view, store.searchResults) == Shown(catalogue, p, size, limit)
  }

  /** The view of page p of the catalogue, once its slice has arrived. */
  method ShowPage<T>(store: Store<T>, catalogue: seq<T>, ghost p: nat, request: Request) returns (view: View)
    requires request.page == p + 1 && request.pageSize > 0 && store.currentPage == p
    requires request.category == RemoteCategory(store.activeNav, store.activeCat)
    modifies store`searchResults, store`remoteTotal, store`currentPage
    ensures var w, s, nav, total := store.window, store.spacing, store.activeNav, |catalogue|;
            p < PagesFor(w, s, nav, total) ==>
              ShowsPage(store, view, catalogue, p, request.pageSize, ScreenSize(w, s, nav, total),
                        PagesFor(w, s, nav, total))
  {
    hide LayoutFor, Deals, GridItems, ScreenSize, PagesFor, Slice, RemoteCategory;
    SizesPositive(store.window, store.spacing, store.activeNav, |catalogue|);
    var list := Slice(catalogue, request.page - 1, request.pageSize);
    SomeOfNone(catalogue, request.page - 1, request.pageSize);
    var matches := store.Receive(Response(false, request.category, request.page, list, |catalogue|));
    assert matches;
    view := store.ViewAppGrid();
    assert list != [] ==> store.Total() == |catalogue|;
    if view.AppGrid? {
      var spec := LayoutFor(store.window, store.spacing, store.activeNav, |catalogue|).spec;
      DealtItems(view.rows, spec.cols, Min(|list|, spec.itemsPerPage), list);
    }
  }

  /** Nothing but the page that is shown has changed. */
  twostate predicate SameSetting<T>(store: Store<T>)
    reads store
  {
    store.window == old(store.window) && store.spacing == old(store.spacing)
    && store.activeNav == old(store.activeNav) && store.activeCat == old(store.activeCat)
  }

  /** From the first page on, the next page is asked for as long as there is a button for it, every request is
      answered with the slice it names, and what is on the screen is noted down.  The notes are the catalogue exactly
      when it fits one page or the two page sizes agree. */
  method Browse<T>(store: Store<T>, catalogue: seq<T>) returns (noted: seq<T>)
    modifies store
    ensures noted == catalogue
            <==> PagesFor(store.window, store.spacing, store.activeNav, |catalogue|) == 1
                 || SentinelHarmless(store.window, store.spacing)
    ensures SameSetting(store)
  {
    hide LayoutFor, SentinelHarmless, AllShown, Shown, Slice, ItemsOn, ServerSize, ScreenSize, PagesFor, RemoteCategory;
    ghost var size := ServerSize(store.window, store.spacing, store.activeNav);
    ghost var limit := ScreenSize(store.window, store.spacing, store.activeNav, |catalogue|);
    ghost var pages := PagesFor(store.window, store.spacing, store.activeNav, |catalogue|);
    var requests := store.TriggerRemotePage(0);
    var view := ShowPage(store, catalogue, 0, requests[0]);
    noted := ItemsOn(view, store.searchResults);
    ghost var p := 0;
    AllShownRound(catalogue, size, limit, 0);
    while view.AppGrid? && view.page < view.totalPages - 1
      invariant ShowsPage(store, view, catalogue, p, size, limit, pages) && SameSetting(store)
      invariant noted == AllShown(catalogue, size, limit, p + 1)
      decreases pages - p
    {
      SomeOfNone(catalogue, p, size);
      requests := store.PressButton(view, true);
      p := p + 1;
      view := ShowPage(store, catalogue, p, requests[0]);
      noted := noted + ItemsOn(view, store.searchResults);
      AllShownRound(catalogue, size, limit, p);
    }
    if view.EmptyState? && p + 1 < pages {
      NothingBehind(catalogue, size, limit, p, pages);
      EmptySlices(catalogue, size, limit, p, p);
      AllShownRound(catalogue, size, limit, p);
    }
    PagesPartitionCatalogue(catalogue, store.window, store.spacing, store.activeNav);
  }

  lemma SomeOfNone<T>(catalogue: seq<T>, p: nat, size: nat)
    ensures Slice(catalogue, p, size) != [] ==> |catalogue| > 0
  {
  }

  predicate OnScreen(rows: seq<seq<Cell>>, i: nat) {
    exists r: nat, c: nat :: r < |rows| && c < |rows[r]| && rows[r][c] == Card(i)
  }

  lemma OnScreenIfDealt(rows: seq<seq<Cell>>, cols: nat, end: nat, i: nat)
    requires cols > 0 && Deals(rows, cols, end)
    ensures OnScreen(rows, i) <==> i < end
  {
    if i < end {
      EachItemOnce(rows, cols, end, i);
    }
    forall r: nat, c: nat | r < |rows| && c < |rows[r]| && rows[r][c] == Card(i)
      ensures i < end
    {
      assert IsRow(rows[r], cols * r, cols, end);
    }
  }

  /** `rows` is what a page shows of a list of `count` items when the server gave no total. */
  ghost predicate ShowsHead(w: Window, s: Spacing, nav: int, count: nat, rows: seq<seq<Cell>>) {
    var spec := LayoutFor(w, s, nav, count).spec;
    spec.cols > 0 && spec.itemsPerPage > 0 && Deals(rows, spec.cols, Min(count, spec.itemsPerPage))
  }

  /** Without a count from the server every page shows the head of the list, whatever the current page is: the
      whole list is on the screen exactly when there is one page, and the rows shown are no more than fit. */
  lemma ClientSidePages(w: Window, s: Spacing, nav: int, count: nat, rows: seq<seq<Cell>>)
    ensures var layout := LayoutFor(w, s, nav, count);
            ShowsHead(w, s, nav, count, rows) ==>
              ((forall i: nat :: i < count ==> OnScreen(rows, i)) <==> layout.totalPages == 1)
              && |rows| <= layout.spec.rows
  {
    hide PageCount, Deals, OnScreen;
    var layout := LayoutFor(w, s, nav, count);
    if ShowsHead(w, s, nav, count, rows) {
      var end := Min(count, layout.spec.itemsPerPage);
      forall i: nat
        ensures OnScreen(rows, i) <==> i < end
      {
        OnScreenIfDealt(rows, layout.spec.cols, end, i);
      }
      SecondPassStays(w, s, nav, count);
      BarTakesRoom(w, s, nav);
      SpecPositive(w, s, ReserveFor(nav), count > PerPage(w, s, nav, true));
      RowsSuffice(rows, layout.spec.cols, end, layout.spec.rows);
      assert count > end ==> !OnScreen(rows, end);
    }
  }
}
