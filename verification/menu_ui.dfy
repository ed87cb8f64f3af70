/** The layout decisions of the menu renderer in `ui.c`: the cached menu
    width, the rows drawn for a window `start..end` of a `MenuList`, the
    scroll arrows and the description line. Instead of blitting, each
    operation returns what it would draw and where. `SCALE1` and the font
    metrics are defined outside the modelled files, so they come in as the
    functions of a `Metrics` value. */
module MenuUi {
  import opened Wrappers
  import opened CLib

  // The style constants of ui.h.
  const OptionPadding := 10
  const ButtonSize := 40
  const PillSize := 20
  const Padding := 16
  const ScrollWidth := 24
  const ScrollHeight := 4

  /** `MenuItem`: `values` is `NULL` (`None`) or the array of choices, `value`
      the index of the current one. */
  datatype MenuItem = MenuItem(name: string, desc: Option<string>, values: Option<seq<string>>, value: int)

  /** `MenuList`: the items (`count` is their number), the cached width
      (0 meaning "not computed yet") and the menu's description. */
  datatype MenuList = MenuList(items: seq<MenuItem>, maxWidth: int, desc: Option<string>)

  datatype Size = Size(w: int, h: int)

  /** `SCALE1`, the width of a string in the small font (`TTF_SizeUTF8` on
      `font.small`), the width of a string rendered in the tiny font, and
      `GFX_sizeText` on `font.tiny` with a given line height. */
  datatype Metrics = Metrics(
    scale: int -> int,
    smallWidth: string -> int,
    tinyWidth: string -> int,
    tinySize: (string, int) -> Size)

  datatype Color = Black | White
  datatype Point = Point(x: int, y: int)
  datatype Rect = Rect(x: int, y: int, w: int, h: int)
  datatype Label = Label(text: string, color: Color, at: Point)

  /** What is drawn for the item at `index`: the selection pill, if any, the
      item's name and, if any, its current value. */
  datatype Row = Row(index: int, pill: Option<Rect>, name: Label, value: Option<Label>)

  // ---------------------------------------------------------------------
  // Width

  /** The width one item asks for: its name plus padding on both sides. */
  function OptionWidth(item: MenuItem, m: Metrics): int {
    m.smallWidth(item.name) + m.scale(OptionPadding * 2)
  }

  /** The widest item's width, or 0 when no item is wider than that: the
      maximum the `if (w > mw) mw = w;` loop reaches from 0. */
  function Widest(items: seq<MenuItem>, m: Metrics): (w: int)
    ensures w >= 0
    ensures forall i :: 0 <= i < |items| ==> OptionWidth(items[i], m) <= w
    ensures w == 0 || exists i :: 0 <= i < |items| && w == OptionWidth(items[i], m)
  {
    if |items| == 0 then 0
    else
      var w0 := Widest(items[..|items| - 1], m);
      var last := OptionWidth(items[|items| - 1], m);
      assert forall i :: 0 <= i < |items| - 1 ==> items[..|items| - 1][i] == items[i];
      if last > w0 then last else w0
  }

  /** One more iteration of the width loop. */
  lemma WidestExtends(items: seq<MenuItem>, i: nat, m: Metrics)
    requires i < |items|
    ensures var w0 := Widest(items[..i], m); var w := OptionWidth(items[i], m);
      Widest(items[..i + 1], m) == if w > w0 then w else w0
  {
    assert items[..i + 1][..i] == items[..i];
    assert items[..i + 1][i] == items[i];
  }

  /** The widest the menu block may be: the screen less its padding. */
  function WidthLimit(screenW: int, m: Metrics): int {
    screenW - m.scale(Padding * 2)
  }

  function Min(a: int, b: int): int {
    if a < b then a else b
  }

  /** The width part of `UI_renderMenuOptions`: a non-zero cached width is
      used as it is; otherwise the width of the widest item, capped by the
      screen, is computed and stored back into the list. */
  method MenuWidth(list: MenuList, screenW: int, m: Metrics) returns (mw: int, cached: MenuList)
    ensures list.maxWidth != 0 ==> mw == list.maxWidth && cached == list
    ensures list.maxWidth == 0 ==> mw == Min(Widest(list.items, m), WidthLimit(screenW, m))
    ensures cached == list.(maxWidth := mw)
  {
    mw := list.maxWidth;
    cached := list;
    if mw == 0 {
      var i := 0;
      while i < |list.items|
        invariant 0 <= i <= |list.items|
        invariant mw == Widest(list.items[..i], m)
      {
        var w := OptionWidth(list.items[i], m);
        WidestExtends(list.items, i, m);
        if w > mw {
          mw := w;
        }
        i := i + 1;
      }
      assert list.items[..i] == list.items;
      mw := Min(mw, WidthLimit(screenW, m));
      cached := list.(maxWidth := mw);
    }
  }

  // ---------------------------------------------------------------------
  // Rows

  /** `ox`: the menu block is centred with C's truncating division, so the
      margins left and right of it differ by at most one pixel; the odd
      pixel goes to the right margin when the block fits and to the left
      one when it is wider than the screen. */
  function MenuLeft(screenW: int, mw: int): (ox: int)
    ensures -1 <= (screenW - mw) - 2 * ox <= 1
    ensures if screenW >= mw then 0 <= (screenW - mw) - 2 * ox <= 1 else -1 <= (screenW - mw) - 2 * ox <= 0
  {
    HalfIsCentred(screenW - mw);
    TruncDiv(screenW - mw, 2)
  }

  /** `oy`: the first row sits below the top padding and the title pill. */
  function MenuTop(m: Metrics): int {
    m.scale(Padding + PillSize)
  }

  /** An item's current value can be read: `values[value]` is only read when
      `value >= 0` and `values` is non-null, and must then be in bounds. */
  predicate ValueReadable(item: MenuItem) {
    item.value >= 0 && item.values.Some? ==> item.value < |item.values.value|
  }

  /** What the caller of `UI_renderMenuOptions` must provide: the drawn
      window lies within the items, whose values can be read. */
  predicate WindowReadable(list: MenuList, start: int, end: int) {
    start >= end ||
    (0 <= start && end <= |list.items| &&
     forall i :: start <= i < end ==> ValueReadable(list.items[i]))
  }

  /** The body of the row loop for item `i` in row `j`: its name one padding
      inside the block's left edge, black on the pill when selected and white
      otherwise; the pill only behind the selected row, spanning the whole
      block; the value only for an item that has one, its right edge one
      padding inside the block's right edge. */
  function RowAt(item: MenuItem, i: int, j: int, ox: int, oy: int, mw: int, selected: int, m: Metrics): (r: Row)
    requires ValueReadable(item)
    ensures r.index == i && r.name.text == item.name
    ensures r.name.at == Point(ox + m.scale(OptionPadding), oy + m.scale(j * ButtonSize + 1))
    ensures r.name.color == Black <==> i == selected
    ensures r.pill.Some? <==> i == selected
    ensures r.pill.Some? ==> r.pill.value.x == ox && r.pill.value.w == mw && r.pill.value.h == m.scale(ButtonSize)
                             && r.pill.value.y == oy + m.scale(j * ButtonSize)
    ensures r.value.Some? <==> item.value >= 0 && item.values.Some?
    ensures r.value.Some? ==> r.value.value.color == White
    ensures r.value.Some? ==> r.value.value.text == item.values.value[item.value]
                              && r.value.value.at.x + m.tinyWidth(r.value.value.text) + m.scale(OptionPadding) == ox + mw
                              && r.value.value.at.y == oy + m.scale(j * ButtonSize + 3)
  {
    var isSelected := i == selected;
    var pill := if isSelected then Some(Rect(ox, oy + m.scale(j * ButtonSize), mw, m.scale(ButtonSize))) else None;
    var name := Label(item.name, if isSelected then Black else White, Point(ox + m.scale(OptionPadding), oy + m.scale(j * ButtonSize + 1)));
    var value :=
      if item.value >= 0 && item.values.Some? then
        var text := item.values.value[item.value];
        Some(Label(text, White, Point(ox + mw - m.tinyWidth(text) - m.scale(OptionPadding), oy + m.scale(j * ButtonSize + 3))))
      else None;
    Row(i, pill, name, value)
  }

  /** `UI_renderMenuOptions`: the width (cached as above), then one row for
      each index of `start..end - 1`, in order, laid out by `RowAt` in the
      block of that width centred on the screen. */
  method RenderMenuOptions(list: MenuList, screenW: int, start: int, end: int, selected: int, m: Metrics)
    returns (rows: seq<Row>, cached: MenuList)
    requires WindowReadable(list, start, end)
    ensures list.maxWidth != 0 ==> cached == list
    ensures list.maxWidth == 0 ==> cached == list.(maxWidth := Min(Widest(list.items, m), WidthLimit(screenW, m)))
    ensures |rows| == (if end > start then end - start else 0)
    ensures forall j :: 0 <= j < |rows| ==>
      rows[j] == RowAt(list.items[start + j], start + j, j, MenuLeft(screenW, cached.maxWidth), MenuTop(m), cached.maxWidth, selected, m)
  {
    var mw;
    mw, cached := MenuWidth(list, screenW, m);
    var ox := MenuLeft(screenW, mw);
    var oy := MenuTop(m);
    rows := [];
    if start < end {
      var i := start;
      while i < end
        invariant start <= i <= end
        invariant |rows| == i - start
        invariant forall k :: 0 <= k < |rows| ==> rows[k] == RowAt(list.items[start + k], start + k, k, ox, oy, mw, selected, m)
      {
        rows := rows + [RowAt(list.items[i], i, i - start, ox, oy, mw, selected, m)];
        i := i + 1;
      }
    }
  }

  /** Over the rows `RenderMenuOptions` returns: row `j` shows item
      `start + j`; exactly the selected row, if it is in the window, is
      highlighted (pill and black text), so at most one row is; every other
      name is white; a value appears exactly for items with `value >= 0` and
      non-null `values`. */
  lemma MenuRowsLayout(list: MenuList, start: int, end: int, selected: int, ox: int, oy: int, mw: int, m: Metrics, rows: seq<Row>)
    requires WindowReadable(list, start, end)
    requires |rows| == (if end > start then end - start else 0)
    requires forall j :: 0 <= j < |rows| ==>
      rows[j] == RowAt(list.items[start + j], start + j, j, ox, oy, mw, selected, m)
    ensures forall j :: 0 <= j < |rows| ==> rows[j].index == start + j && rows[j].name.text == list.items[start + j].name
    ensures forall j :: 0 <= j < |rows| ==> (rows[j].pill.Some? <==> start + j == selected)
    ensures forall j :: 0 <= j < |rows| ==> (rows[j].name.color == White <==> start + j != selected)
    ensures forall j :: 0 <= j < |rows| ==>
      (rows[j].value.Some? <==> list.items[start + j].value >= 0 && list.items[start + j].values.Some?)
    ensures forall j, k :: 0 <= j < k < |rows| ==> !(rows[j].pill.Some? && rows[k].pill.Some?)
    ensures (exists j :: 0 <= j < |rows| && rows[j].pill.Some?) <==> start <= selected < end
  {
    if start <= selected < end {
      assert rows[selected - start].pill.Some?;
    }
  }

  // ---------------------------------------------------------------------
  // Scroll arrows

  datatype Arrows = Arrows(up: Option<Point>, down: Option<Point>)

  /** `UI_renderScrollBars`: arrows only when the window shows fewer rows
      than there are items; the up arrow when rows are hidden above, the down
      arrow when rows are hidden below. */
  function ScrollBars(screenW: int, screenH: int, count: int, start: int, end: int, m: Metrics): (r: Arrows)
    ensures r.up.Some? <==> count > end - start && start > 0
    ensures r.down.Some? <==> count > end - start && end < count
    ensures r.up.Some? && r.down.Some? ==> r.up.value.x == r.down.value.x
    ensures r.up.Some? ==> r.up.value.x == MenuLeft(screenW, m.scale(ScrollWidth))
    ensures r.down.Some? ==> r.down.value.x == MenuLeft(screenW, m.scale(ScrollWidth))
    ensures r.up.Some? ==> r.up.value.y == m.scale(Padding) + m.scale((PillSize - ScrollHeight) / 2)
    ensures r.down.Some? ==>
      r.down.value.y == screenH - m.scale(Padding + PillSize + ButtonSize) + m.scale((PillSize - ScrollHeight) / 2)
  {
    if count > end - start then
      var ox := MenuLeft(screenW, m.scale(ScrollWidth));
      var oy := m.scale((PillSize - ScrollHeight) / 2);
      Arrows(if start > 0 then Some(Point(ox, m.scale(Padding) + oy)) else None,
             if end < count then Some(Point(ox, screenH - m.scale(Padding + PillSize + ButtonSize) + oy)) else None)
    else Arrows(None, None)
  }

  /** For a window inside the list, the arrows say exactly whether rows are
      hidden above and below it, and there is an arrow iff the window does
      not show the whole list. */
  lemma ArrowsMarkHiddenRows(screenW: int, screenH: int, count: int, start: int, end: int, m: Metrics)
    requires 0 <= start <= end <= count
    ensures ScrollBars(screenW, screenH, count, start, end, m).up.Some? <==> start > 0
    ensures ScrollBars(screenW, screenH, count, start, end, m).down.Some? <==> end < count
    ensures (ScrollBars(screenW, screenH, count, start, end, m) != Arrows(None, None)) <==> end - start < count
  {
  }

  // ---------------------------------------------------------------------
  // Description

  datatype Caption = Caption(text: string, color: Color, rect: Rect)

  /** `UI_renderDescription`: nothing without a description; otherwise the
      text, measured at line height `SCALE1(12)`, centred horizontally with
      its bottom edge on the bottom padding. */
  function Description(desc: Option<string>, screenW: int, screenH: int, m: Metrics): (r: Option<Caption>)
    ensures r.Some? <==> desc.Some?
    ensures r.Some? ==> r.value.text == desc.value && r.value.color == White
    ensures r.Some? ==> var size := m.tinySize(desc.value, m.scale(12));
      r.value.rect.w == size.w && r.value.rect.h == size.h
    ensures r.Some? ==> r.value.rect.y + r.value.rect.h == screenH - m.scale(Padding)
    ensures r.Some? ==> -1 <= (screenW - r.value.rect.w) - 2 * r.value.rect.x <= 1
    ensures r.Some? ==> r.value.rect.x == MenuLeft(screenW, r.value.rect.w)
  {
    match desc
    case None => None
    case Some(text) =>
      var size := m.tinySize(text, m.scale(12));
      HalfIsCentred(screenW - size.w);
      Some(Caption(text, White, Rect(MenuLeft(screenW, size.w), screenH - m.scale(Padding) - size.h, size.w, size.h)))
  }
}
