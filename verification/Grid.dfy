/** The grid arithmetic written twice in the user interface: app_grid_spec of ui/store_ui.c lays out the
    cards, current_items_per_page of ui/main.c sizes the server's pages. */
module Grid {
  const SIDEBAR_W := 180
  const CARD_H := 88
  const GRID_MIN_CARD_W := 320
  const GRID_TARGET_CARD_W := 380
  const GRID_MAX_CARD_W := 480
  const GRID_MAX_COLS := 6
  const TITLEBAR_H := 52
  const CONTENT_HEADER_H := 44
  const GRID_PAGE_H := 40
  const SENTINEL := 1_000_000

  /** The spacing constants DS_SPACE_3 and DS_SPACE_4. */
  datatype Spacing = Spacing(gap: nat, padding: nat)

  datatype Window = Window(width: int, height: int)

  datatype AppGridSpec = AppGridSpec(cols: int, rows: int, cardW: int, itemsPerPage: int)

  /** Division as in C, towards zero. */
  function CDiv(a: int, b: int): int
    requires b > 0
  {
    if a >= 0 then a / b else -(-a / b)
  }

  function Abs(v: int): int { if v < 0 then -v else v }

  function Clamp(v: int, min: int, max: int): int {
    if v < min then min else if v > max then max else v
  }

  function ContentWidth(w: Window, s: Spacing): int {
    var width := w.width - SIDEBAR_W - s.padding * 2;
    if width < 1 then 1 else width
  }

  function ContentHeight(w: Window, s: Spacing, reserve: int, pagination: bool): int {
    var height := w.height - TITLEBAR_H - reserve - s.padding * 2 - if pagination then GRID_PAGE_H else 0;
    if height < CARD_H then CARD_H else height
  }

  /** Width of a card when `cols` of them and their gaps share the content width. */
  function CardWidth(width: int, gap: nat, cols: int): int
    requires cols > 0
  {
    CDiv(width - gap * (cols - 1), cols)
  }

  function Score(cardW: int): nat {
    Abs(cardW - GRID_TARGET_CARD_W) + if cardW > GRID_MAX_CARD_W then (cardW - GRID_MAX_CARD_W) * 2 else 0
  }

  function MaxCols(width: int, gap: nat): (n: int)
    ensures 1 <= n <= GRID_MAX_COLS
  {
    Clamp(CDiv(width + gap, GRID_MIN_CARD_W + gap), 1, GRID_MAX_COLS)
  }

  function Rows(height: int, gap: nat): (n: int)
    ensures 1 <= n <= 12
  {
    Clamp(CDiv(height + gap, CARD_H + gap), 1, 12)
  }

  /** c is the least column count up to n with the least score. */
  ghost predicate IsBest(width: int, gap: nat, n: int, c: int) {
    1 <= c <= n
    && (forall d :: 1 <= d <= n ==> Score(CardWidth(width, gap, c)) <= Score(CardWidth(width, gap, d)))
    && forall d :: 1 <= d < c ==> Score(CardWidth(width, gap, d)) > Score(CardWidth(width, gap, c))
  }

  /** The least best column count up to n. */
  function BestCols(width: int, gap: nat, n: int): (c: int)
    requires n >= 1
    ensures 1 <= c <= n
  {
    if n == 1 then 1
    else
      var c := BestCols(width, gap, n - 1);
      if Score(CardWidth(width, gap, n)) < Score(CardWidth(width, gap, c)) then n else c
  }

  lemma {:induction false} BestColsIsBest(width: int, gap: nat, n: int)
    requires n >= 1
    ensures IsBest(width, gap, n, BestCols(width, gap, n))
  {
    hide Score, CardWidth;
    if n > 1 {
      BestColsIsBest(width, gap, n - 1);
    }
  }

  lemma BestIsUnique(width: int, gap: nat, n: int, c: int, d: int)
    requires IsBest(width, gap, n, c) && IsBest(width, gap, n, d)
    ensures c == d
  {
    hide Score, CardWidth;
    assert Score(CardWidth(width, gap, c)) == Score(CardWidth(width, gap, d));
  }

  /** The column count of app_grid_spec: the best one, unless even its score reaches the sentinel. */
  function SpecCols(width: int, gap: nat, n: int): (c: int)
    requires n >= 1
    ensures 1 <= c <= n
  {
    var c := BestCols(width, gap, n);
    if Score(CardWidth(width, gap, c)) < SENTINEL then c else 1
  }

  function SpecOf(w: Window, s: Spacing, reserve: int, pagination: bool): AppGridSpec {
    var width := ContentWidth(w, s);
    var cols := SpecCols(width, s.gap, MaxCols(width, s.gap));
    var rows := Rows(ContentHeight(w, s, reserve, pagination), s.gap);
    AppGridSpec(cols, rows, CardWidth(width, s.gap, cols), cols * rows)
  }

  /** app_grid_spec. */
  method ComputeSpec(w: Window, s: Spacing, reserve: int, pagination: bool) returns (spec: AppGridSpec)
    ensures spec == SpecOf(w, s, reserve, pagination)
  {
    hide Score, CardWidth, CDiv;
    var gap := s.gap;
    var contentW := w.width - SIDEBAR_W - s.padding * 2;
    var contentH := w.height - TITLEBAR_H - reserve - s.padding * 2;
    if pagination {
      contentH := contentH - GRID_PAGE_H;
    }
    if contentW < 1 {
      contentW := 1;
    }
    if contentH < CARD_H {
      contentH := CARD_H;
    }
    var maxFitCols := Clamp(CDiv(contentW + gap, GRID_MIN_CARD_W + gap), 1, GRID_MAX_COLS);
    var bestCols, bestW, bestScore := 1, contentW, SENTINEL;
    var cols := 1;
    OneColumn(contentW, gap);
    while cols <= maxFitCols
      invariant 1 <= cols <= maxFitCols + 1
      invariant cols == 1 ==> bestCols == 1 && bestW == contentW && bestScore == SENTINEL
      invariant cols > 1 ==>
                  bestCols == SpecCols(contentW, gap, cols - 1) && bestW == CardWidth(contentW, gap, bestCols)
      invariant cols > 1 ==> var least := Score(CardWidth(contentW, gap, BestCols(contentW, gap, cols - 1)));
                             bestScore == if least < SENTINEL then least else SENTINEL
      decreases maxFitCols - cols
    {
      var cardW := CardWidth(contentW, gap, cols);
      var score := Score(cardW);
      if score < bestScore {
        bestScore, bestCols, bestW := score, cols, cardW;
      }
      cols := cols + 1;
    }
    var rows := Clamp(CDiv(contentH + gap, CARD_H + gap), 1, 12);
    spec := AppGridSpec(bestCols, rows, bestW, bestCols * rows);
  }

  lemma OneColumn(width: int, gap: nat)
    ensures width >= 1 ==> CardWidth(width, gap, 1) == width
  {
  }

  // ---------------------------------------------------------------- the server's page size

  const NAV_RECOMMENDED := 0
  const NAV_ALL := 1
  const NAV_CAT_OFFICE := 4
  const NAV_CAT_GAMES := 7

  /** Height reserved above the grid on a page; the same on both sides. */
  function ReserveFor(nav: int): int {
    if nav == NAV_ALL || nav == NAV_RECOMMENDED || NAV_CAT_OFFICE <= nav <= NAV_CAT_GAMES then CONTENT_HEADER_H else 0
  }

  function ItemsPerPage(w: Window, s: Spacing, nav: int, pagination: bool): int {
    var width := ContentWidth(w, s);
    BestCols(width, s.gap, MaxCols(width, s.gap)) * Rows(ContentHeight(w, s, ReserveFor(nav), pagination), s.gap)
  }

  /** current_items_per_page, with a store. */
  method CurrentItemsPerPage(w: Window, s: Spacing, nav: int, pagination: bool) returns (items: int)
    ensures items == ItemsPerPage(w, s, nav, pagination)
  {
    hide Score, CardWidth, CDiv;
    var reserve := 0;
    if nav == NAV_ALL || nav == NAV_RECOMMENDED || (nav >= NAV_CAT_OFFICE && nav <= NAV_CAT_GAMES) {
      reserve := reserve + CONTENT_HEADER_H;
    }
    var gap := s.gap;
    var contentW := w.width - SIDEBAR_W - s.padding * 2;
    var contentH := w.height - TITLEBAR_H - reserve - s.padding * 2;
    if pagination {
      contentH := contentH - GRID_PAGE_H;
    }
    if contentW < 1 {
      contentW := 1;
    }
    if contentH < CARD_H {
      contentH := CARD_H;
    }
    var maxFitCols := CDiv(contentW + gap, GRID_MIN_CARD_W + gap);
    if maxFitCols > GRID_MAX_COLS {
      maxFitCols := GRID_MAX_COLS;
    }
    if maxFitCols < 1 {
      maxFitCols := 1;
    }
    assert contentW == ContentWidth(w, s) && contentH == ContentHeight(w, s, ReserveFor(nav), pagination);
    assert maxFitCols == MaxCols(contentW, gap);
    hide ContentWidth, ContentHeight, MaxCols, ReserveFor;
    var bestCols := 1;
    var cols := 1;
    while cols <= maxFitCols
      invariant 1 <= cols <= maxFitCols + 1
      invariant bestCols == if cols == 1 then 1 else BestCols(contentW, gap, cols - 1)
      decreases maxFitCols - cols
    {
      var score := Score(CardWidth(contentW, gap, cols));
      var bestScore := Score(CardWidth(contentW, gap, bestCols));
      if score < bestScore {
        bestCols := cols;
      }
      cols := cols + 1;
    }
    var rows := CDiv(contentH + gap, CARD_H + gap);
    if rows > 12 {
      rows := 12;
    }
    if rows < 1 {
      rows := 1;
    }
    items := bestCols * rows;
    items := if items > 0 then items else 30;
  }

  // ---------------------------------------------------------------- agreement

  /** The best score is below the sentinel, or one column is best anyway. */
  predicate SentinelHarmless(w: Window, s: Spacing) {
    var width := ContentWidth(w, s);
    var c := BestCols(width, s.gap, MaxCols(width, s.gap));
    c == 1 || Score(CardWidth(width, s.gap, c)) < SENTINEL
  }

  /** Displayed pages and server pages have the same size exactly when the sentinel does no harm. */
  lemma PageSizesAgree(w: Window, s: Spacing, nav: int, pagination: bool)
    ensures ItemsPerPage(w, s, nav, pagination) == SpecOf(w, s, ReserveFor(nav), pagination).itemsPerPage
            <==> SentinelHarmless(w, s)
  {
    hide Score, CardWidth, MaxCols, Rows, BestCols, ContentWidth, ContentHeight;
    var width := ContentWidth(w, s);
    var rows := Rows(ContentHeight(w, s, ReserveFor(nav), pagination), s.gap);
    var c, d := BestCols(width, s.gap, MaxCols(width, s.gap)), SpecCols(width, s.gap, MaxCols(width, s.gap));
    if c != d {
      assert (c - d) * rows != 0;
    }
  }

  /** A one-column score below the sentinel is enough. */
  lemma OneColumnScoreSuffices(w: Window, s: Spacing)
    requires Score(CardWidth(ContentWidth(w, s), s.gap, 1)) < SENTINEL
    ensures SentinelHarmless(w, s)
  {
    var width := ContentWidth(w, s);
    BestColsIsBest(width, s.gap, MaxCols(width, s.gap));
    hide Score, CardWidth;
  }

  /** A window of any height in which even the best score reaches the sentinel. */
  function WideWindow(s: Spacing, height: int): Window {
    Window(SIDEBAR_W + s.padding * 2 + 6_000_000 + 5 * s.gap, height)
  }

  lemma WideCards(gap: nat, c: int)
    requires 1 <= c <= 6
    ensures CardWidth(6_000_000 + 5 * gap, gap, c) >= 1_000_000
    ensures c == 6 ==> CardWidth(6_000_000 + 5 * gap, gap, c) == 1_000_000
    ensures c == 1 ==> CardWidth(6_000_000 + 5 * gap, gap, c) >= 6_000_000
  {
    assert gap * (c - 1) <= gap * 5;
    LeastQuotient(6_000_000 + 5 * gap - gap * (c - 1), c, (6_000_000 + 5 * gap - gap * (c - 1)) / c, 1_000_000);
  }

  lemma SixFit(gap: nat)
    ensures MaxCols(6_000_000 + 5 * gap, gap) == 6
  {
    var total, d := 6_000_000 + 6 * gap, GRID_MIN_CARD_W + gap;
    LeastQuotient(total, d, total / d, 6);
  }

  /** For every spacing the sentinel does harm in a window that is wide enough. */
  lemma SentinelHarms(s: Spacing, height: int)
    ensures !SentinelHarmless(WideWindow(s, height), s)
  {
    var width := ContentWidth(WideWindow(s, height), s);
    assert width == 6_000_000 + 5 * s.gap;
    SixFit(s.gap);
    BestColsIsBest(width, s.gap, 6);
    var c := BestCols(width, s.gap, 6);
    WideCards(s.gap, 1);
    WideCards(s.gap, 6);
    WideCards(s.gap, c);
    hide BestCols, CardWidth, MaxCols;
  }

  /** There the two page sizes differ on every page of the navigation. */
  lemma WidePagesDiffer(s: Spacing, height: int, nav: int, pagination: bool)
    ensures var w := WideWindow(s, height);
            ItemsPerPage(w, s, nav, pagination) != SpecOf(w, s, ReserveFor(nav), pagination).itemsPerPage
  {
    hide SentinelHarmless, ItemsPerPage, SpecOf;
    SentinelHarms(s, height);
    PageSizesAgree(WideWindow(s, height), s, nav, pagination);
  }

  lemma FittingCols(width: int, gap: nat, cols: int)
    requires width >= 1 && 1 < cols <= MaxCols(width, gap)
    ensures cols * (GRID_MIN_CARD_W + gap) <= width + gap
  {
    var q := (width + gap) / (GRID_MIN_CARD_W + gap);
    assert cols <= q;
    assert q * (GRID_MIN_CARD_W + gap) <= width + gap;
    assert cols * (GRID_MIN_CARD_W + gap) <= q * (GRID_MIN_CARD_W + gap);
  }

  /** Any column count up to the maximum fits: the cards with their gaps stay inside the content width,
      and are at least of the minimum width if there is more than one. */
  lemma ColumnsFit(width: int, gap: nat, cols: int)
    requires width >= 1 && 1 <= cols <= MaxCols(width, gap)
    ensures var cardW := CardWidth(width, gap, cols);
            cardW >= 1 && cols * cardW + gap * (cols - 1) <= width && (cols > 1 ==> cardW >= GRID_MIN_CARD_W)
  {
    if cols > 1 {
      FittingCols(width, gap, cols);
      DivideEvenly(width - gap * (cols - 1), cols, GRID_MIN_CARD_W);
    }
  }

  lemma DivideEvenly(total: int, parts: int, min: nat)
    requires parts > 0 && total >= parts * min
    ensures CDiv(total, parts) >= min && parts * CDiv(total, parts) <= total
  {
    assert total >= 0;
    LeastQuotient(total, parts, total / parts, min);
  }

  lemma LeastQuotient(total: int, parts: int, q: int, min: nat)
    ensures parts > 0 && parts * min <= total < parts * (q + 1) ==> min <= q
  {
  }

  /** The grid that is laid out fits. */
  lemma SpecFits(w: Window, s: Spacing, reserve: int, pagination: bool)
    ensures var spec, width := SpecOf(w, s, reserve, pagination), ContentWidth(w, s);
            spec.cols * spec.cardW + s.gap * (spec.cols - 1) <= width
            && (spec.cols > 1 ==> spec.cardW >= GRID_MIN_CARD_W)
            && spec.itemsPerPage == spec.cols * spec.rows && 1 <= spec.cols <= GRID_MAX_COLS && 1 <= spec.rows <= 12
  {
    hide CardWidth, SpecCols;
    var width := ContentWidth(w, s);
    ColumnsFit(width, s.gap, SpecCols(width, s.gap, MaxCols(width, s.gap)));
  }

  // ---------------------------------------------------------------- the same on widths and heights

  /** n rows of cards 88 high, with the gaps between them, fit into the height and are as many as can, up to twelve. */
  predicate FillsHeight(height: int, gap: nat, n: int) {
    1 <= n <= 12 && n * 88 + gap * (n - 1) <= height && (n == 12 || (n + 1) * 88 + gap * n > height)
  }

  lemma QuotientBounds(total: nat, d: int, q: int)
    requires d > 0 && q == total / d
    ensures q * d <= total < (q + 1) * d && q >= 0
  {
  }

  lemma RowsFill(height: int, gap: nat)
    requires height >= 88
    ensures FillsHeight(height, gap, Rows(height, gap))
  {
    var d, q := 88 + gap, (height + gap) / (88 + gap);
    QuotientBounds(height + gap, d, q);
    LeastQuotient(height + gap, d, q, 1);
    assert Rows(height, gap) == if q > 12 then 12 else q;
    hide Rows, FillsHeight;
    FillsClamped(height, gap, d, q);
  }

  lemma FillsClamped(height: int, gap: nat, d: int, q: int)
    requires d == 88 + gap && q * d <= height + gap < (q + 1) * d && q >= 1
    ensures FillsHeight(height, gap, if q > 12 then 12 else q)
  {
    if q > 12 {
      ScaledLess(12, q, d);
    } else {
      assert q * d == q * 88 + gap * q && (q + 1) * d == (q + 1) * 88 + gap * (q + 1);
    }
  }

  lemma ScaledLess(a: int, b: int, d: nat)
    ensures a <= b ==> a * d <= b * d
  {
  }

  lemma RowsTake(n: int, gap: nat)
    ensures n * 88 + gap * (n - 1) == n * (88 + gap) - gap
  {
  }

  lemma FewerRows(height: int, gap: nat, m: int, n: int)
    requires FillsHeight(height, gap, m) && FillsHeight(height, gap, n)
    ensures m >= n
  {
    RowsTake(m + 1, gap);
    RowsTake(n, gap);
    if m < n {
      ScaledLess(m + 1, n, 88 + gap);
    }
  }

  lemma FillIsUnique(height: int, gap: nat, m: int, n: int)
    requires FillsHeight(height, gap, m) && FillsHeight(height, gap, n)
    ensures m == n
  {
    hide FillsHeight;
    FewerRows(height, gap, m, n);
    FewerRows(height, gap, n, m);
  }

  /** x is the width of the widest cards of which d, with the gaps between them, fit into the width; more than one
      only if they are at least 320 wide, and never more than six. */
  predicate CardsOf(width: int, gap: nat, d: int, x: int) {
    1 <= d <= 6 && (d == 1 || x >= 320) && d * x + gap * (d - 1) <= width < d * (x + 1) + gap * (d - 1)
  }

  lemma CardsAreOf(width: int, gap: nat, d: int)
    requires width >= 1 && 1 <= d <= MaxCols(width, gap)
    ensures CardsOf(width, gap, d, CardWidth(width, gap, d))
  {
    var total := width - gap * (d - 1);
    ColumnsFit(width, gap, d);
    assert total >= 0;
    assert d * (total / d) <= total < d * (total / d + 1);
  }

  lemma CardsFit(width: int, gap: nat, d: int, x: int)
    requires width >= 1 && CardsOf(width, gap, d, x)
    ensures d <= MaxCols(width, gap) && x == CardWidth(width, gap, d)
  {
    var total := width - gap * (d - 1);
    if d > 1 {
      FitsIsCount(width, gap, d, x);
    }
    QuotientIs(total, d, x);
  }

  lemma QuotientIs(total: int, d: int, x: int)
    requires d > 0 && d * x <= total < d * (x + 1) && (x >= 0 || d == 1)
    ensures CDiv(total, d) == x
  {
    if d > 1 {
      assert total >= 0;
      var q := total / d;
      QuotientBounds(total, d, q);
      if x < q {
        ScaledLess(x + 1, q, d);
      } else if q < x {
        ScaledLess(q + 1, x, d);
      }
    }
  }

  lemma FitsIsCount(width: int, gap: nat, d: int, x: int)
    requires 1 < d <= 6 && x >= 320 && d * x + gap * (d - 1) <= width
    ensures d <= MaxCols(width, gap)
  {
    var total, each := width + gap, 320 + gap;
    ScaledLess(320, x, d);
    assert d * each == d * 320 + gap * (d - 1) + gap;
    QuotientBounds(total, each, total / each);
    LeastQuotient(total, each, total / each, d);
  }

  /** A card of width x is no worse than one of width y: up to 480 the one nearer to 380 is better, beyond it the
      narrower one, and any up to 480 is better than any beyond. */
  predicate NoWorse(x: int, y: int) {
    if x <= 480 && y <= 480 then Distance(x, 380) <= Distance(y, 380)
    else if x > 480 && y > 480 then x <= y
    else x <= 480
  }

  function Distance(x: int, y: int): nat { if x < y then y - x else x - y }

  lemma ScoreOrder(x: int, y: int)
    requires x >= 320 && y >= 320
    ensures Score(x) <= Score(y) <==> NoWorse(x, y)
  {
  }

  /** c columns of cards x wide: no other number of columns that fits gives better cards, and no smaller one gives
      cards as good. */
  ghost predicate BestColumns(width: int, gap: nat, c: int, x: int) {
    CardsOf(width, gap, c, x)
    && forall d, y :: CardsOf(width, gap, d, y) ==> NoWorse(x, y) && (d < c ==> !NoWorse(y, x))
  }

  /** No more than one column fits if that column is below 320. */
  lemma NarrowIsOne(width: int, gap: nat, d: int, x: int)
    ensures CardsOf(width, gap, d, x) && width < 320 ==> d == 1 && x == width
  {
    if CardsOf(width, gap, d, x) && d > 1 {
      ScaledLess(320, x, d);
    }
  }

  lemma BestOnWidths(width: int, gap: nat)
    requires width >= 1
    ensures var c := BestCols(width, gap, MaxCols(width, gap));
            BestColumns(width, gap, c, CardWidth(width, gap, c))
  {
    var n := MaxCols(width, gap);
    BestColsIsBest(width, gap, n);
    var c := BestCols(width, gap, n);
    CardsAreOf(width, gap, c);
    hide BestCols, MaxCols, CardWidth, Score, NoWorse, CardsOf;
    var x := CardWidth(width, gap, c);
    NarrowIsOne(width, gap, c, x);
    forall d, y | CardsOf(width, gap, d, y)
      ensures NoWorse(x, y) && (d < c ==> !NoWorse(y, x))
    {
      CardsFit(width, gap, d, y);
      NarrowIsOne(width, gap, d, y);
      OneOfWidth(width, gap, c, x);
      OneOfWidth(width, gap, d, y);
      NoWorseSelf(x);
      if width >= 320 {
        ScoreOrder(x, y);
        ScoreOrder(y, x);
      }
    }
  }

  lemma OneOfWidth(width: int, gap: nat, d: int, x: int)
    ensures CardsOf(width, gap, d, x) ==> 1 <= d && (d == 1 ==> x == width) && (d > 1 ==> x >= 320)
  {
  }

  lemma NoWorseSelf(x: int)
    ensures NoWorse(x, x)
  {
  }

  lemma BestColumnsUnique(width: int, gap: nat, c: int, x: int, d: int, y: int)
    requires width >= 1 && BestColumns(width, gap, c, x) && BestColumns(width, gap, d, y)
    ensures c == d && x == y
  {
    CardsFit(width, gap, c, x);
    CardsFit(width, gap, d, y);
    hide MaxCols, CardWidth, NoWorse, CardsOf;
  }

  /** Every number of columns that fits gives cards of 333780 or more: scores of a million or more. */
  ghost predicate AllTooWide(width: int, gap: nat) {
    forall d, y :: CardsOf(width, gap, d, y) ==> y >= 333_780
  }

  lemma TooWideExactly(width: int, gap: nat)
    requires width >= 1
    ensures AllTooWide(width, gap)
            <==> Score(CardWidth(width, gap, BestCols(width, gap, MaxCols(width, gap)))) >= SENTINEL
  {
    BestOnWidths(width, gap);
    var c := BestCols(width, gap, MaxCols(width, gap));
    var x := CardWidth(width, gap, c);
    OneOfWidth(width, gap, c, x);
    hide BestCols, MaxCols, CardWidth, CardsOf;
    if x >= 333_780 {
      forall d, y | CardsOf(width, gap, d, y) ensures y >= 333_780 {
        assert NoWorse(x, y);
      }
    }
  }

  /** The width left for the cards. */
  function Room(total: int, least: int): int { if total < least then least else total }

  /** The layout on widths and heights alone: the rows fill the height left below the title bar, the reserved part,
      the padding and the bar; the columns are the best that fit into the width left beside the side bar and the
      padding, or one column if all that fit are too wide. */
  lemma GridOnWidths(w: Window, s: Spacing, reserve: int, pagination: bool)
    ensures var spec := SpecOf(w, s, reserve, pagination);
            var width := Room(w.width - 180 - 2 * s.padding, 1);
            var height := Room(w.height - 52 - reserve - 2 * s.padding - (if pagination then 40 else 0), 88);
            FillsHeight(height, s.gap, spec.rows) && spec.itemsPerPage == spec.cols * spec.rows
            && (!AllTooWide(width, s.gap) ==> BestColumns(width, s.gap, spec.cols, spec.cardW))
            && (AllTooWide(width, s.gap) ==> spec.cols == 1 && spec.cardW == width)
  {
    var width, height := ContentWidth(w, s), ContentHeight(w, s, reserve, pagination);
    OneColumn(width, s.gap);
    hide Score, CardWidth, MaxCols, Rows, BestCols, FillsHeight, BestColumns, AllTooWide;
    RowsFill(height, s.gap);
    BestOnWidths(width, s.gap);
    TooWideExactly(width, s.gap);
  }

  /** The server's page on widths and heights alone: as many items as the rows that fill the height left on that page
      of the navigation and the best columns that fit. */
  lemma PageOnWidths(w: Window, s: Spacing, nav: int, pagination: bool, c: int, x: int, n: int)
    requires BestColumns(Room(w.width - 180 - 2 * s.padding, 1), s.gap, c, x)
    requires FillsHeight(Room(w.height - 52 - (if nav == 0 || nav == 1 || 4 <= nav <= 7 then 44 else 0) - 2 * s.padding
                              - (if pagination then 40 else 0), 88), s.gap, n)
    ensures ItemsPerPage(w, s, nav, pagination) == c * n
  {
    var width, height := ContentWidth(w, s), ContentHeight(w, s, ReserveFor(nav), pagination);
    hide Score, CardWidth, MaxCols, Rows, BestCols, FillsHeight, BestColumns;
    RowsFill(height, s.gap);
    FillIsUnique(height, s.gap, n, Rows(height, s.gap));
    BestOnWidths(width, s.gap);
    var d := BestCols(width, s.gap, MaxCols(width, s.gap));
    BestColumnsUnique(width, s.gap, c, x, d, CardWidth(width, s.gap, d));
  }

  /** The two page sizes agree if and only if some number of columns that fits gives cards narrower than 333780, or
      one column is best. */
  lemma AgreeOnWidths(w: Window, s: Spacing, nav: int, pagination: bool)
    ensures var width := Room(w.width - 180 - 2 * s.padding, 1);
            ItemsPerPage(w, s, nav, pagination) == SpecOf(w, s, ReserveFor(nav), pagination).itemsPerPage
            <==> !AllTooWide(width, s.gap) || BestColumns(width, s.gap, 1, width)
  {
    var width := ContentWidth(w, s);
    OneColumn(width, s.gap);
    hide Score, CardWidth, MaxCols, BestCols, BestColumns, AllTooWide, ItemsPerPage, SpecOf;
    PageSizesAgree(w, s, nav, pagination);
    BestOnWidths(width, s.gap);
    TooWideExactly(width, s.gap);
    var c := BestCols(width, s.gap, MaxCols(width, s.gap));
    if BestColumns(width, s.gap, 1, width) {
      BestColumnsUnique(width, s.gap, 1, width, c, CardWidth(width, s.gap, c));
    }
  }
}
