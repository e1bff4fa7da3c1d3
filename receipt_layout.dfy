/**
 * Receipt layout (`crear_pdf_recibo`, src-tauri/src/main.rs:184-277).
 *
 * The document is described by the text it draws and where: a sequence of draw events in
 * drawing order. Every coordinate of the source is a whole number of millimetres, so its
 * `f32` arithmetic is exact and is modelled with integers. Fonts, the page size and the
 * serialisation of the document are left to the PDF library and are not modelled.
 */
module ReceiptLayout {
  import opened RustText

  /** A money amount, as the text `format_money` makes of it (`"$12.50"`). */
  type Money = string

  /** One sold item of a receipt request (`VentaItem`). */
  datatype SaleLine = SaleLine(id: int, name: string, price: Money, quantity: int, subtotal: Money)

  /** One piece of text put on the document. */
  datatype DrawEvent =
    | Header(page: nat)                                     // title, date and column heading at the top of a page
    | Line(page: nat, index: nat, text: string, y: int)     // the row of the sale at `index`
    | Footer(page: nat, text: string, y: int)               // the grand total

  datatype Document = Document(title: string, dateText: string, events: seq<DrawEvent>)

  // Vertical positions in millimetres from the bottom of the page.
  const StartY: int := 170
  const MinY: int := 18
  const TitleGap: int := 8
  const DateGap: int := 10
  const ColumnsGap: int := 6
  /** What `draw_header` moves the cursor down: title, date line and column heading. */
  const HeaderHeight: int := TitleGap + DateGap + ColumnsGap
  const LineStep: int := 5
  const FooterStep: int := 10
  /** The number of rows a page holds; `LinesPerPageIsCapacity` derives it from the constants above. */
  const LinesPerPage: nat := 25
  /** The number of rows that still leave room for the footer on their page. */
  const RowsBesideFooter: nat := 23

  // ---------------------------------------------------------------- row text

  const MaxNameBytes: nat := 28
  const KeptChars: nat := 25
  const Ellipsis: string := "..."

  /**
   * The product name as printed: kept when its UTF-8 encoding has at most 28 bytes,
   * otherwise its first 25 characters (all of them, if it has fewer) followed by `...`.
   * Whatever the name, what is printed has at most 28 characters.
   */
  function TruncateName(name: string): (r: string)
    ensures |r| <= MaxNameBytes
    ensures Utf8Len(name) <= MaxNameBytes ==> r == name
  {
    if Utf8Len(name) > MaxNameBytes then
      (if |name| <= KeptChars then name else name[..KeptChars]) + Ellipsis
    else
      CharsAtMostBytes(name);
      name
  }

  /** An ASCII name is kept when it has at most 28 characters and otherwise cut to exactly 28. */
  lemma AsciiNameTruncation(name: string)
    requires IsAscii(name)
    ensures |name| <= MaxNameBytes ==> TruncateName(name) == name
    ensures |name| > MaxNameBytes ==>
      |TruncateName(name)| == MaxNameBytes
      && TruncateName(name)[..KeptChars] == name[..KeptChars]
      && TruncateName(name)[KeptChars..] == Ellipsis
  {
    CharsAtMostBytes(name);
  }

  /** A name no longer than 25 characters is never cut, however many bytes it takes. */
  lemma ShortNameKeepsItsCharacters(name: string)
    requires |name| <= KeptChars
    ensures TruncateName(name)[..|name|] == name
  {
  }

  /**
   * The length test counts bytes while the cut counts characters: a name of at most 25
   * characters whose encoding takes more than 28 bytes loses nothing but still gets `...`.
   */
  lemma WideShortNameGetsEllipsis(name: string)
    requires |name| <= KeptChars && Utf8Len(name) > MaxNameBytes
    ensures TruncateName(name) == name + Ellipsis
    ensures |TruncateName(name)| == |name| + 3
  {
  }

  /** A name cut to 25 characters keeps exactly its first 25 characters, whatever their width. */
  lemma LongNameCut(name: string)
    requires |name| > KeptChars && Utf8Len(name) > MaxNameBytes
    ensures |TruncateName(name)| == MaxNameBytes
    ensures TruncateName(name) == name[..KeptChars] + Ellipsis
  {
  }

  /** `format!("{:<4} {:<32} {:>4} {:>7} {:>9}", id, name, quantity, price, subtotal)`. */
  function FormatRow(line: SaleLine): (r: string)
    ensures |r| >= 60
    ensures |r| == 60 <==>
      |IntToString(line.id)| <= 4 && |IntToString(line.quantity)| <= 4 && |line.price| <= 7 && |line.subtotal| <= 9
  {
    FieldWidths(IntToString(line.id), TruncateName(line.name), IntToString(line.quantity),
                line.price, line.subtotal);
    PadRight(IntToString(line.id), 4) + " " + PadRight(TruncateName(line.name), 32) + " "
    + PadLeft(IntToString(line.quantity), 4) + " " + PadLeft(line.price, 7) + " "
    + PadLeft(line.subtotal, 9)
  }

  /** The width of a row, for any field texts: 60 exactly when no field overflows its column. */
  lemma FieldWidths(id: string, name: string, qty: string, price: string, subtotal: string)
    requires |name| <= 32
    ensures var r := PadRight(id, 4) + " " + PadRight(name, 32) + " " + PadLeft(qty, 4) + " "
                     + PadLeft(price, 7) + " " + PadLeft(subtotal, 9);
      && |r| >= 60
      && (|r| == 60 <==> |id| <= 4 && |qty| <= 4 && |price| <= 7 && |subtotal| <= 9)
  {
    var a, b, c, d, e := PadRight(id, 4), PadRight(name, 32), PadLeft(qty, 4), PadLeft(price, 7),
                         PadLeft(subtotal, 9);
    assert |a| >= 4 && (|a| == 4 <==> |id| <= 4);
    assert |b| == 32;
    assert |c| >= 4 && (|c| == 4 <==> |qty| <= 4);
    assert |d| >= 7 && (|d| == 7 <==> |price| <= 7);
    assert |e| >= 9 && (|e| == 9 <==> |subtotal| <= 9);
    assert |a + " " + b + " " + c + " " + d + " " + e| == |a| + |b| + |c| + |d| + |e| + 4;
  }

  /**
   * When the id and the quantity take at most 4 characters, the price at most 7 and the
   * subtotal at most 9, a row is 60 characters of fixed columns: the id left-aligned from
   * column 0, the printed name left-aligned from column 5, and the quantity, price and
   * subtotal right-aligned to columns 42, 50 and 60.
   */
  lemma RowColumns(line: SaleLine)
    requires |IntToString(line.id)| <= 4 && |IntToString(line.quantity)| <= 4
    requires |line.price| <= 7 && |line.subtotal| <= 9
    ensures var r := FormatRow(line);
      var name := TruncateName(line.name);
      && |r| == 60
      && r[..|IntToString(line.id)|] == IntToString(line.id)
      && r[5..5 + |name|] == name
      && r[42 - |IntToString(line.quantity)|..42] == IntToString(line.quantity)
      && r[50 - |line.price|..50] == line.price
      && r[60 - |line.subtotal|..] == line.subtotal
  {
    FieldColumns(IntToString(line.id), TruncateName(line.name), IntToString(line.quantity),
                 line.price, line.subtotal);
  }

  /** The column arithmetic of a row, for any field texts of the admitted widths. */
  lemma FieldColumns(id: string, name: string, qty: string, price: string, subtotal: string)
    requires |id| <= 4 && |name| <= 32 && |qty| <= 4 && |price| <= 7 && |subtotal| <= 9
    ensures var r := PadRight(id, 4) + " " + PadRight(name, 32) + " " + PadLeft(qty, 4) + " "
                     + PadLeft(price, 7) + " " + PadLeft(subtotal, 9);
      && |r| == 60
      && r[..|id|] == id
      && r[5..5 + |name|] == name
      && r[42 - |qty|..42] == qty
      && r[50 - |price|..50] == price
      && r[60 - |subtotal|..] == subtotal
  {
    var a := PadRight(id, 4);
    var b := PadRight(name, 32);
    var c := PadLeft(qty, 4);
    var d := PadLeft(price, 7);
    var e := PadLeft(subtotal, 9);
    var r := a + " " + b + " " + c + " " + d + " " + e;
    FiveColumns(a, b, c, d, e);
    PlacedFields(r, a, b, c, d, e, |id|, |name|, |qty|, |price|, |subtotal|);
  }

  /** Where the texts of the fields end up, once the fields are at their columns. */
  lemma PlacedFields(r: string, a: string, b: string, c: string, d: string, e: string,
                     n1: nat, n2: nat, n3: nat, n4: nat, n5: nat)
    requires |r| == 60 && r[0..4] == a && r[5..37] == b && r[38..42] == c && r[43..50] == d && r[51..60] == e
    requires n1 <= 4 && n2 <= 32 && n3 <= 4 && n4 <= 7 && n5 <= 9
    ensures r[..n1] == a[..n1] && r[5..5 + n2] == b[..n2] && r[42 - n3..42] == c[4 - n3..]
    ensures r[50 - n4..50] == d[7 - n4..] && r[60 - n5..] == e[9 - n5..]
  {
    StartOfField(r, 0, a, n1);
    StartOfField(r, 5, b, n2);
    EndOfField(r, 38, c, n3);
    EndOfField(r, 43, d, n4);
    EndOfField(r, 51, e, n5);
    assert r[..n1] == r[0..n1];
    assert r[60 - n5..] == r[60 - n5..60];
  }

  /** The first `n` characters of a field are at the field's start. */
  lemma StartOfField(r: string, i: nat, f: string, n: nat)
    requires i + |f| <= |r| && r[i..i + |f|] == f && n <= |f|
    ensures r[i..i + n] == f[..n]
  {
    forall m | 0 <= m < n ensures r[i..i + n][m] == f[..n][m] {
      assert r[i..i + |f|][m] == r[i + m];
    }
  }

  /** The last `n` characters of a field are at the field's end. */
  lemma EndOfField(r: string, i: nat, f: string, n: nat)
    requires i + |f| <= |r| && r[i..i + |f|] == f && n <= |f|
    ensures r[i + |f| - n..i + |f|] == f[|f| - n..]
  {
    var j, k := i + |f| - n, |f| - n;
    var u, v := r[j..i + |f|], f[k..];
    forall m | 0 <= m < n ensures u[m] == v[m] {
      assert r[i..i + |f|][k + m] == r[j + m];
    }
  }

  /** Five fields of widths 4, 32, 4, 7 and 9 joined by single spaces sit at fixed columns. */
  lemma FiveColumns(a: string, b: string, c: string, d: string, e: string)
    requires |a| == 4 && |b| == 32 && |c| == 4 && |d| == 7 && |e| == 9
    ensures var r := a + " " + b + " " + c + " " + d + " " + e;
      && |r| == 60 && r[0..4] == a && r[5..37] == b && r[38..42] == c && r[43..50] == d && r[51..60] == e
  {
  }

  /** The rows of a receipt, one per sale, in order. */
  function Rows(sales: seq<SaleLine>): (rows: seq<string>)
    ensures |rows| == |sales|
    ensures forall i :: 0 <= i < |sales| ==> rows[i] == FormatRow(sales[i])
  {
    seq(|sales|, i requires 0 <= i < |sales| => FormatRow(sales[i]))
  }

  /** `format!("Total: {}", format_money(total))`. */
  function FooterText(total: Money): (r: string)
    ensures StartsWith(r, "Total: ") && EndsWith(r, total) && |r| == |total| + 7
  {
    "Total: " + total
  }

  // ---------------------------------------------------------------- the cursor, as the source runs it

  /** What has been drawn so far, the cursor height and the current page (`page_count`). */
  datatype Pen = Pen(events: seq<DrawEvent>, y: int, page: nat)

  /** The first page with its header drawn from `start_y`. */
  function FirstPage(): Pen {
    Pen([Header(1)], StartY - HeaderHeight, 1)
  }

  /** One row: on a new page when it would go below `min_y`, then 5 mm lower. */
  function PlaceLine(p: Pen, i: nat, text: string): (r: Pen)
    ensures |r.events| > |p.events| && r.events[|r.events| - 1] == Line(r.page, i, text, r.y)
    ensures r.page == p.page <==> p.y - LineStep >= MinY
    ensures r.page == p.page ==> |r.events| == |p.events| + 1
    ensures r.page != p.page ==> r.page == p.page + 1 && |r.events| == |p.events| + 2 && r.events[|p.events|] == Header(r.page)
    ensures r.y >= MinY
  {
    if p.y - LineStep < MinY then
      Pen(p.events + [Header(p.page + 1), Line(p.page + 1, i, text, StartY - HeaderHeight - LineStep)],
          StartY - HeaderHeight - LineStep, p.page + 1)
    else
      Pen(p.events + [Line(p.page, i, text, p.y - LineStep)], p.y - LineStep, p.page)
  }

  /** The first `k` rows placed one after the other. */
  function PlaceLines(rows: seq<string>, k: nat): Pen
    requires k <= |rows|
  {
    if k == 0 then FirstPage() else PlaceLine(PlaceLines(rows, k - 1), k - 1, rows[k - 1])
  }

  /** The footer: on a new page when it would go below `min_y`, then 10 mm lower. */
  function PlaceFooter(p: Pen, text: string): (r: seq<DrawEvent>)
    ensures |r| > |p.events| && r[|r| - 1].Footer? && r[|r| - 1].text == text && r[|r| - 1].y >= MinY
    ensures r[|r| - 1].page == p.page <==> p.y - FooterStep >= MinY
  {
    if p.y - FooterStep < MinY then
      p.events + [Header(p.page + 1), Footer(p.page + 1, text, StartY - HeaderHeight - FooterStep)]
    else
      p.events + [Footer(p.page, text, p.y - FooterStep)]
  }

  /** Everything the receipt draws, in order. */
  function Layout(rows: seq<string>, footer: string): (r: seq<DrawEvent>)
    ensures r != [] && r[|r| - 1].Footer? && r[|r| - 1].text == footer && r[|r| - 1].y >= MinY
  {
    PlaceFooter(PlaceLines(rows, |rows|), footer)
  }

  /**
   * `crear_pdf_recibo` without the PDF library: the rows of the sales, then the greedy pass
   * that places them and the footer.
   */
  method RenderReceipt(sales: seq<SaleLine>, total: Money, title: string, dateText: string)
    returns (doc: Document)
    ensures doc == Document(title, dateText, Layout(Rows(sales), FooterText(total)))
    ensures LineTexts(doc.events) == Rows(sales)
    ensures forall e :: e in doc.events && !e.Header? ==> MinY <= e.y
  {
    var rows := Rows(sales);
    var events := PlaceAll(rows, FooterText(total));
    doc := Document(title, dateText, events);
  }

  /**
   * The single pass over the rows that moves the cursor down, starting a page (and redrawing
   * the header) when the next row or the footer would go below `min_y`.
   */
  method PlaceAll(rows: seq<string>, footer: string) returns (events: seq<DrawEvent>)
    ensures events == Layout(rows, footer)
    ensures LineTexts(events) == rows
    ensures forall e :: e in events && !e.Header? ==> MinY <= e.y
  {
    events := [Header(1)];
    var currentY := StartY - HeaderHeight;
    var pageCount := 1;
    for i := 0 to |rows|
      invariant Pen(events, currentY, pageCount) == PlaceLines(rows, i)
    {
      if currentY - LineStep < MinY {
        pageCount := pageCount + 1;
        events := events + [Header(pageCount)];
        currentY := StartY - HeaderHeight;
      }
      currentY := currentY - LineStep;
      events := events + [Line(pageCount, i, rows[i], currentY)];
    }
    if currentY - FooterStep < MinY {
      pageCount := pageCount + 1;
      events := events + [Header(pageCount)];
      currentY := StartY - HeaderHeight;
    }
    currentY := currentY - FooterStep;
    events := events + [Footer(pageCount, footer, currentY)];
    LinesInOrder(rows, footer);
    LayoutFloor(rows, footer);
  }

  // ---------------------------------------------------------------- the same layout in closed form

  /** Rows on the page in use after `k` rows. */
  function RowsOnLastPage(k: nat): nat {
    if k == 0 then 0 else (k - 1) % 25 + 1
  }

  /** Pages in use after `k` rows. */
  function PagesAfter(k: nat): nat {
    if k == 0 then 1 else (k - 1) / 25 + 1
  }

  /** Where row `i` is drawn: 25 rows a page, 5 mm apart under the header. */
  function LineY(i: nat): int {
    StartY - HeaderHeight - 5 * (i % 25 + 1)
  }

  /** The events of row `i`: a header first when the row opens a page after the first. */
  function GridRow(rows: seq<string>, i: nat): seq<DrawEvent>
    requires i < |rows|
  {
    (if i > 0 && i % 25 == 0 then [Header(i / 25 + 1)] else [])
    + [Line(i / 25 + 1, i, rows[i], LineY(i))]
  }

  /** The first header and the events of the first `k` rows. */
  function GridRows(rows: seq<string>, k: nat): seq<DrawEvent>
    requires k <= |rows|
  {
    if k == 0 then [Header(1)] else GridRows(rows, k - 1) + GridRow(rows, k - 1)
  }

  /** Pages of a receipt of `n` rows: the footer needs a page of its own when the last page holds more than 23 rows. */
  function PageCount(n: nat): nat {
    PagesAfter(n) + (if RowsOnLastPage(n) > RowsBesideFooter then 1 else 0)
  }

  /** 25 rows fit between the header and `min_y`, a 26th does not; 23 rows leave room for the footer, 24 do not. */
  lemma LinesPerPageIsCapacity()
    ensures StartY - HeaderHeight - 5 * LinesPerPage >= MinY
    ensures StartY - HeaderHeight - 5 * (LinesPerPage + 1) < MinY
    ensures StartY - HeaderHeight - 5 * RowsBesideFooter - FooterStep >= MinY
    ensures StartY - HeaderHeight - 5 * (RowsBesideFooter + 1) - FooterStep < MinY
  {
  }

  /** How the page counters move from `i` rows to `i + 1`. */
  lemma PageStep(i: nat)
    ensures RowsOnLastPage(i) <= LinesPerPage
    ensures RowsOnLastPage(i) == LinesPerPage <==> i > 0 && i % 25 == 0
    ensures RowsOnLastPage(i + 1) == i % 25 + 1 && PagesAfter(i + 1) == i / 25 + 1
    ensures i > 0 && i % 25 == 0 ==> PagesAfter(i + 1) == PagesAfter(i) + 1
    ensures !(i > 0 && i % 25 == 0) ==> PagesAfter(i + 1) == PagesAfter(i)
  {
    if i > 0 {
      var q := (i - 1) / 25;
      var r := (i - 1) % 25;
      assert i - 1 == 25 * q + r;
      if r == LinesPerPage - 1 {
        assert i == 25 * (q + 1);
      } else {
        assert i == 25 * q + (r + 1);
      }
    }
  }

  /** The cursor after `k` rows, in closed form. */
  function ClosedPen(rows: seq<string>, k: nat): Pen
    requires k <= |rows|
  {
    Pen(GridRows(rows, k), StartY - HeaderHeight - 5 * RowsOnLastPage(k), PagesAfter(k))
  }

  /** The cursor the source runs is the closed form: rows fill each page 25 at a time. */
  lemma {:induction false} PlaceLinesClosedForm(rows: seq<string>, k: nat)
    requires k <= |rows|
    ensures PlaceLines(rows, k) == ClosedPen(rows, k)
  {
    if k > 0 {
      var prev := PlaceLines(rows, k - 1);
      assert PlaceLines(rows, k) == PlaceLine(prev, k - 1, rows[k - 1]);
      PlaceLinesClosedForm(rows, k - 1);
      PlaceLineStep(rows, k - 1);
    }
  }

  /** One row placed from the closed form of the rows before it gives the closed form of one more. */
  lemma PlaceLineStep(rows: seq<string>, i: nat)
    requires i < |rows|
    ensures PlaceLine(ClosedPen(rows, i), i, rows[i]) == ClosedPen(rows, i + 1)
  {
    PageStep(i);
    assert GridRows(rows, i + 1) == GridRows(rows, i) + GridRow(rows, i);
  }

  /** Every event of the closed form is placed by the rule "row `i` on page `i / 25 + 1` at `LineY(i)`". */
  ghost predicate WellPlaced(rows: seq<string>, events: seq<DrawEvent>) {
    forall e :: e in events ==>
      && !e.Footer?
      && (e.Line? ==> e.index < |rows| && e.text == rows[e.index]
                      && e.page == e.index / 25 + 1 && e.y == LineY(e.index))
  }

  lemma {:induction false} GridRowsWellPlaced(rows: seq<string>, k: nat)
    requires k <= |rows|
    ensures WellPlaced(rows, GridRows(rows, k))
  {
    if k > 0 {
      GridRowsWellPlaced(rows, k - 1);
    }
  }

  /** Texts of the rows drawn, in drawing order. */
  function LineTexts(events: seq<DrawEvent>): seq<string> {
    if events == [] then []
    else LineTexts(events[..|events| - 1])
         + (if events[|events| - 1].Line? then [events[|events| - 1].text] else [])
  }

  lemma {:induction false} LineTextsAppend(a: seq<DrawEvent>, b: seq<DrawEvent>)
    ensures LineTexts(a + b) == LineTexts(a) + LineTexts(b)
    decreases |b|
  {
    if b == [] {
      assert a + b == a;
    } else {
      assert (a + b)[..|a + b| - 1] == a + b[..|b| - 1];
      LineTextsAppend(a, b[..|b| - 1]);
    }
  }

  /** Pages whose header is drawn, in drawing order. */
  function HeaderPages(events: seq<DrawEvent>): seq<nat> {
    if events == [] then []
    else HeaderPages(events[..|events| - 1])
         + (if events[|events| - 1].Header? then [events[|events| - 1].page] else [])
  }

  lemma {:induction false} HeaderPagesAppend(a: seq<DrawEvent>, b: seq<DrawEvent>)
    ensures HeaderPages(a + b) == HeaderPages(a) + HeaderPages(b)
    decreases |b|
  {
    if b == [] {
      assert a + b == a;
    } else {
      assert (a + b)[..|a + b| - 1] == a + b[..|b| - 1];
      HeaderPagesAppend(a, b[..|b| - 1]);
    }
  }

  /** `[1, 2, ..., p]`. */
  function PageNumbers(p: nat): seq<nat> {
    if p == 0 then [] else PageNumbers(p - 1) + [p]
  }

  lemma SingleEvent(e: DrawEvent)
    ensures LineTexts([e]) == (if e.Line? then [e.text] else [])
    ensures HeaderPages([e]) == (if e.Header? then [e.page] else [])
  {
    assert [e][..0] == [];
  }

  /** The events of row `i` hold its text, and a header exactly when the row opens a page. */
  lemma GridRowEvents(rows: seq<string>, i: nat)
    requires i < |rows|
    ensures LineTexts(GridRow(rows, i)) == [rows[i]]
    ensures HeaderPages(GridRow(rows, i)) == if i > 0 && i % 25 == 0 then [i / 25 + 1] else []
  {
    var line := Line(i / 25 + 1, i, rows[i], LineY(i));
    SingleEvent(line);
    if i > 0 && i % 25 == 0 {
      var h := Header(i / 25 + 1);
      SingleEvent(h);
      LineTextsAppend([h], [line]);
      HeaderPagesAppend([h], [line]);
    }
  }

  lemma {:induction false} GridRowsTexts(rows: seq<string>, k: nat)
    requires k <= |rows|
    ensures LineTexts(GridRows(rows, k)) == rows[..k]
  {
    if k == 0 {
      SingleEvent(Header(1));
    } else {
      GridRowsTexts(rows, k - 1);
      GridRowsTextsStep(rows, k - 1);
    }
  }

  lemma GridRowsTextsStep(rows: seq<string>, i: nat)
    requires i < |rows|
    requires LineTexts(GridRows(rows, i)) == rows[..i]
    ensures LineTexts(GridRows(rows, i + 1)) == rows[..i + 1]
  {
    var prev := GridRows(rows, i);
    var row := GridRow(rows, i);
    assert GridRows(rows, i + 1) == prev + row;
    LineTextsAppend(prev, row);
    GridRowEvents(rows, i);
    assert rows[..i + 1] == rows[..i] + [rows[i]];
  }

  lemma {:induction false} GridRowsHeaders(rows: seq<string>, k: nat)
    requires k <= |rows|
    ensures HeaderPages(GridRows(rows, k)) == PageNumbers(PagesAfter(k))
  {
    if k == 0 {
      SingleEvent(Header(1));
      assert PageNumbers(1) == PageNumbers(0) + [1];
    } else {
      GridRowsHeaders(rows, k - 1);
      GridRowsHeadersStep(rows, k - 1);
    }
  }

  lemma GridRowsHeadersStep(rows: seq<string>, i: nat)
    requires i < |rows|
    requires HeaderPages(GridRows(rows, i)) == PageNumbers(PagesAfter(i))
    ensures HeaderPages(GridRows(rows, i + 1)) == PageNumbers(PagesAfter(i + 1))
  {
    var prev := GridRows(rows, i);
    var row := GridRow(rows, i);
    assert GridRows(rows, i + 1) == prev + row;
    GridRowEvents(rows, i);
    HeaderStep(prev, row, i);
  }

  /** One more row adds the number of the page it opens, if it opens one. */
  lemma HeaderStep(prev: seq<DrawEvent>, row: seq<DrawEvent>, i: nat)
    requires HeaderPages(prev) == PageNumbers(PagesAfter(i))
    requires HeaderPages(row) == if i > 0 && i % 25 == 0 then [i / 25 + 1] else []
    ensures HeaderPages(prev + row) == PageNumbers(PagesAfter(i + 1))
  {
    HeaderPagesAppend(prev, row);
    PageStep(i);
    NumbersStep(HeaderPages(prev), HeaderPages(row), PagesAfter(i), PagesAfter(i + 1));
  }

  /** The page numbers so far, followed by the number of a page just opened, if any. */
  lemma NumbersStep(before: seq<nat>, added: seq<nat>, a: nat, b: nat)
    requires before == PageNumbers(a)
    requires (b == a + 1 && added == [b]) || (b == a && added == [])
    ensures before + added == PageNumbers(b)
  {
    if b == a {
      assert before + added == before;
    }
  }

  // ---------------------------------------------------------------- what the layout guarantees

  /** The layout is the closed form of the rows followed by the footer. */
  lemma {:induction false} LayoutClosedForm(rows: seq<string>, footer: string)
    ensures Layout(rows, footer) == PlaceFooter(ClosedPen(rows, |rows|), footer)
  {
    PlaceLinesClosedForm(rows, |rows|);
  }

  /** The footer goes on a page of its own exactly when the last page holds more than 23 rows. */
  lemma {:induction false} FooterPlacement(rows: seq<string>, footer: string)
    ensures RowsOnLastPage(|rows|) > RowsBesideFooter ==>
      Layout(rows, footer) == GridRows(rows, |rows|)
        + [Header(PagesAfter(|rows|) + 1), Footer(PagesAfter(|rows|) + 1, footer, StartY - HeaderHeight - FooterStep)]
    ensures RowsOnLastPage(|rows|) <= RowsBesideFooter ==>
      Layout(rows, footer) == GridRows(rows, |rows|)
        + [Footer(PagesAfter(|rows|), footer, StartY - HeaderHeight - 5 * RowsOnLastPage(|rows|) - FooterStep)]
  {
    LayoutClosedForm(rows, footer);
    var l := RowsOnLastPage(|rows|);
    FooterRoom(l);
    FooterAfter(GridRows(rows, |rows|), l, PagesAfter(|rows|), footer);
  }

  /** The footer under `l` rows of page `page`. */
  lemma {:induction false} FooterAfter(events: seq<DrawEvent>, l: int, page: nat, footer: string)
    ensures var p := Pen(events, StartY - HeaderHeight - 5 * l, page);
      && (l > RowsBesideFooter ==>
            PlaceFooter(p, footer) == events + [Header(page + 1), Footer(page + 1, footer, StartY - HeaderHeight - FooterStep)])
      && (l <= RowsBesideFooter ==>
            PlaceFooter(p, footer) == events + [Footer(page, footer, StartY - HeaderHeight - 5 * l - FooterStep)])
  {
    FooterRoom(l);
  }

  /** The footer fits under `l` rows exactly when there are at most 23 of them. */
  lemma FooterRoom(l: int)
    ensures StartY - HeaderHeight - 5 * l - FooterStep < MinY <==> l > RowsBesideFooter
  {
  }

  /** Every row and the footer are drawn at or above `min_y`. */
  lemma {:induction false} LayoutFloor(rows: seq<string>, footer: string)
    ensures forall e :: e in Layout(rows, footer) && !e.Header? ==> MinY <= e.y
  {
    LayoutClosedForm(rows, footer);
    GridRowsWellPlaced(rows, |rows|);
    PageStep(|rows|);
  }

  /** Every sale's row is drawn once, in the order of the sales. */
  lemma {:induction false} LinesInOrder(rows: seq<string>, footer: string)
    ensures LineTexts(Layout(rows, footer)) == rows
  {
    var n := |rows|;
    var g, l := GridRows(rows, n), Layout(rows, footer);
    FooterTailEvents(rows, footer);
    var tail := l[|g|..];
    assert l == g + tail;
    GridRowsTexts(rows, n);
    assert rows[..n] == rows;
    LineTextsAppend(g, tail);
  }

  /** Row `i` is drawn on page `i / 25 + 1`, 5 mm under the previous row of its page. */
  lemma {:induction false} LinePlacement(rows: seq<string>, footer: string)
    ensures forall e :: e in Layout(rows, footer) && e.Line? ==>
      e.index < |rows| && e.text == rows[e.index]
      && e.page == e.index / 25 + 1 && e.y == LineY(e.index)
  {
    LayoutClosedForm(rows, footer);
    GridRowsWellPlaced(rows, |rows|);
  }

  /** No page holds more than 25 rows. */
  lemma {:induction false} AtMostLinesPerPage(rows: seq<string>, footer: string)
    ensures forall e1, e2 ::
      (e1 in Layout(rows, footer) && e2 in Layout(rows, footer)
       && e1.Line? && e2.Line? && e1.page == e2.page && e1.index < e2.index)
      ==> e2.index - e1.index < LinesPerPage
  {
    LinePlacement(rows, footer);
  }

  /** The footer is drawn exactly once, as the last thing on the document. */
  lemma {:induction false} FooterOnceAtEnd(rows: seq<string>, footer: string)
    ensures var l := Layout(rows, footer);
      && |l| >= 2 && l[|l| - 1].Footer? && l[|l| - 1].text == footer
      && forall j :: 0 <= j < |l| - 1 ==> !l[j].Footer?
  {
    LayoutClosedForm(rows, footer);
    GridRowsWellPlaced(rows, |rows|);
    var g := GridRows(rows, |rows|);
    assert g != [] by {
      if |rows| > 0 { assert |GridRows(rows, |rows|)| >= |GridRow(rows, |rows| - 1)|; }
    }
    forall j | 0 <= j < |g| ensures !g[j].Footer? {
      assert g[j] in g;
    }
  }

  /** The first event is the header of page 1, and the headers number the pages 1, 2, ... in order. */
  lemma {:induction false} HeadersNumberThePages(rows: seq<string>, footer: string)
    ensures Layout(rows, footer)[0] == Header(1)
    ensures HeaderPages(Layout(rows, footer)) == PageNumbers(PageCount(|rows|))
  {
    var n := |rows|;
    FooterTailEvents(rows, footer);
    GridRowsHeaders(rows, n);
    GridRowsFirst(rows, n);
    HeadersAfterPrefix(Layout(rows, footer), GridRows(rows, n), PagesAfter(n), PageCount(n));
  }

  /** Events that start with `g` and add at most the header of one more page. */
  lemma HeadersAfterPrefix(l: seq<DrawEvent>, g: seq<DrawEvent>, a: nat, b: nat)
    requires 1 <= |g| <= |l| && l[..|g|] == g && g[0] == Header(1)
    requires HeaderPages(g) == PageNumbers(a)
    requires (b == a + 1 && HeaderPages(l[|g|..]) == [b]) || (b == a && HeaderPages(l[|g|..]) == [])
    ensures l[0] == Header(1) && HeaderPages(l) == PageNumbers(b)
  {
    var tail := l[|g|..];
    assert l == g + tail;
    HeaderPagesAppend(g, tail);
    NumbersStep(HeaderPages(g), HeaderPages(tail), a, b);
  }

  /** What follows the rows: no row, and a header for one more page exactly when the footer needs it. */
  lemma {:induction false} FooterTailEvents(rows: seq<string>, footer: string)
    ensures |GridRows(rows, |rows|)| <= |Layout(rows, footer)|
    ensures Layout(rows, footer)[..|GridRows(rows, |rows|)|] == GridRows(rows, |rows|)
    ensures var tail := Layout(rows, footer)[|GridRows(rows, |rows|)|..];
      && LineTexts(tail) == []
      && HeaderPages(tail) == if RowsOnLastPage(|rows|) > RowsBesideFooter then [PagesAfter(|rows|) + 1] else []
  {
    var n := |rows|;
    FooterPlacement(rows, footer);
    var p := PagesAfter(n);
    var l := RowsOnLastPage(n);
    if l > RowsBesideFooter {
      FooterTail(GridRows(rows, n), [Header(p + 1)], Footer(p + 1, footer, StartY - HeaderHeight - FooterStep));
    } else {
      FooterTail(GridRows(rows, n), [], Footer(p, footer, StartY - HeaderHeight - 5 * l - FooterStep));
    }
  }

  /** Events `g`, then possibly a header, then the footer: what follows `g` draws no row. */
  lemma FooterTail(g: seq<DrawEvent>, header: seq<DrawEvent>, f: DrawEvent)
    requires f.Footer? && (header == [] || (|header| == 1 && header[0].Header?))
    ensures var all := g + header + [f];
      && all[..|g|] == g
      && LineTexts(all[|g|..]) == []
      && HeaderPages(all[|g|..]) == if header == [] then [] else [header[0].page]
  {
    var all := g + header + [f];
    assert all[|g|..] == header + [f];
    SingleEvent(f);
    if header != [] {
      SingleEvent(header[0]);
    }
    LineTextsAppend(header, [f]);
    HeaderPagesAppend(header, [f]);
  }

  lemma {:induction false} GridRowsFirst(rows: seq<string>, k: nat)
    requires k <= |rows|
    ensures |GridRows(rows, k)| >= 1 && GridRows(rows, k)[0] == Header(1)
  {
    if k > 0 {
      GridRowsFirst(rows, k - 1);
    }
  }

  /** Sixty rows take three pages; 23 rows and the footer fit on one page, 24 rows push the footer to a second. */
  lemma PageCountExamples()
    ensures PageCount(0) == 1 && PageCount(23) == 1 && PageCount(24) == 2
    ensures PageCount(25) == 2 && PageCount(26) == 2 && PageCount(60) == 3
  {
  }
}
