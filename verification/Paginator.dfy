/** Drawing wrapped lines page by page: where each line lands, and that none overlap. */
module Paginator {
  import opened TextLayout

  const MARGIN := 40.0
  const PAGE_HEIGHT := 297.0 * 72.0 / 25.4
  const TOP := PAGE_HEIGHT - MARGIN
  const TITLE_SIZE := 15.0
  const BODY_SIZE := 10.0

  datatype Mark = Mark(page: nat, y: real, text: string)

  /** The part of the drawing surface that the renderer touches. */
  class Canvas {
    var page: nat
    var marks: seq<Mark>

    constructor ()
      ensures page == 0 && marks == []
    {
      page, marks := 0, [];
    }

    method ShowPage()
      modifies this
      ensures page == old(page) + 1 && marks == old(marks)
    {
      page := page + 1;
    }

    method DrawString(y: real, text: string)
      modifies this
      ensures page == old(page) && marks == old(marks) + [Mark(page, y, text)]
    {
      marks := marks + [Mark(page, y, text)];
    }
  }

  // ----- where lines go, counted row by row -----

  datatype Slot = Slot(page: nat, y: real)

  /** The slot a line takes when the cursor stands here. */
  function Settled(at: Slot): Slot {
    if at.y <= MARGIN then Slot(at.page + 1, TOP) else at
  }

  function Moved(at: Slot, size: real): Slot {
    Slot(Settled(at).page, Settled(at).y - (size + 3.0))
  }

  /** The cursor after n lines. */
  function After(at: Slot, size: real, n: nat): Slot {
    if n == 0 then at else Moved(After(at, size, n - 1), size)
  }

  function Shown(line: string): string {
    if |line| > 4096 then line[..4096] else line
  }

  function MarksOf(lines: seq<string>, at: Slot, size: real): seq<Mark> {
    if lines == [] then []
    else
      var n := |lines| - 1;
      var slot := Settled(After(at, size, n));
      MarksOf(lines[..n], at, size) +
        if lines[n] == "" then [] else [Mark(slot.page, slot.y, Shown(lines[n]))]
  }

  method DrawLines(pdf: Canvas, lines: seq<string>, y0: real, size: real) returns (y: real)
    modifies pdf
    ensures pdf.marks == old(pdf.marks) + MarksOf(lines, Slot(old(pdf.page), y0), size)
    ensures Slot(pdf.page, y) == After(Slot(old(pdf.page), y0), size, |lines|)
  {
    y := y0;
    var lineHeight := size + 3.0;
    ghost var at := Slot(pdf.page, y0);
    for i := 0 to |lines|
      invariant Slot(pdf.page, y) == After(at, size, i)
      invariant pdf.marks == old(pdf.marks) + MarksOf(lines[..i], at, size)
    {
      assert lines[..i + 1][..i] == lines[..i];
      var line := lines[i];
      if y <= MARGIN {
        pdf.ShowPage();
        y := PAGE_HEIGHT - MARGIN;
      }
      if line != "" {
        pdf.DrawString(y, if |line| > 4096 then line[..4096] else line);
      }
      y := y - lineHeight;
    }
    assert lines[..|lines|] == lines;
  }

  // ----- every line is drawn once, in order, inside the margins -----

  function TextsOf(marks: seq<Mark>): seq<string> {
    if marks == [] then [] else TextsOf(marks[..|marks| - 1]) + [marks[|marks| - 1].text]
  }

  function Visible(lines: seq<string>): seq<string> {
    if lines == [] then []
    else Visible(lines[..|lines| - 1]) + if lines[|lines| - 1] == "" then [] else [lines[|lines| - 1]]
  }

  /** What is shown of each line: its first 4096 characters. */
  function AllShown(lines: seq<string>): seq<string> {
    if lines == [] then [] else AllShown(lines[..|lines| - 1]) + [Shown(lines[|lines| - 1])]
  }

  /** What is shown of a line: all of it, or its first 4096 characters; and lines are left out only if
      they are empty. */
  lemma ShownExactly(lines: seq<string>, line: string)
    ensures Shown(line) <= line && |Shown(line)| == (if |line| < 4096 then |line| else 4096)
    ensures Visible([]) == [] && Visible(lines + [line]) == Visible(lines) + if |line| == 0 then [] else [line]
    ensures AllShown([]) == [] && AllShown(lines + [line]) == AllShown(lines) + [Shown(line)]
  {
    assert (lines + [line])[..|lines|] == lines;
  }

  /** Every line with something on it is drawn once, in order. */
  lemma {:induction false} DrawnOnceInOrder(lines: seq<string>, at: Slot, size: real)
    ensures TextsOf(MarksOf(lines, at, size)) == AllShown(Visible(lines))
  {
    if lines != [] {
      var n := |lines| - 1;
      DrawnOnceInOrder(lines[..n], at, size);
      if lines[n] != "" {
        var marks, visible := MarksOf(lines, at, size), Visible(lines);
        assert marks[..|marks| - 1] == MarksOf(lines[..n], at, size);
        assert visible[..|visible| - 1] == Visible(lines[..n]);
      } else {
        assert MarksOf(lines, at, size) == MarksOf(lines[..n], at, size);
        assert Visible(lines) == Visible(lines[..n]);
      }
    }
  }

  ghost predicate OnThePage(marks: seq<Mark>) {
    forall i :: 0 <= i < |marks| ==> MARGIN < marks[i].y <= TOP
  }

  lemma {:induction false} CursorBelowTop(at: Slot, size: real, n: nat)
    requires at.y <= TOP && 0.0 <= size
    ensures After(at, size, n).y <= TOP
  {
    if n > 0 { CursorBelowTop(at, size, n - 1); }
  }

  lemma {:induction false} NothingInTheMargins(lines: seq<string>, at: Slot, size: real)
    requires at.y <= TOP && 0.0 <= size
    ensures OnThePage(MarksOf(lines, at, size))
  {
    if lines != [] {
      NothingInTheMargins(lines[..|lines| - 1], at, size);
      CursorBelowTop(at, size, |lines| - 1);
    }
  }

  // ----- no two lines overlap -----

  /** On one page the second line is at least so far below the first; it is never on an earlier page. */
  predicate Below(first: Slot, second: Slot, gap: real) {
    first.page < second.page || (first.page == second.page && second.y <= first.y - gap)
  }

  ghost predicate Apart(marks: seq<Mark>, gap: real) {
    forall i, j :: 0 <= i < j < |marks| ==>
      Below(Slot(marks[i].page, marks[i].y), Slot(marks[j].page, marks[j].y), gap)
  }

  /** All marks leave room for the line that the cursor would draw next. */
  ghost predicate Above(marks: seq<Mark>, at: Slot, gap: real) {
    forall i :: 0 <= i < |marks| ==> Below(Slot(marks[i].page, marks[i].y), at, gap)
  }

  lemma {:induction false} NoOverlap(drawn: seq<Mark>, lines: seq<string>, at: Slot, size: real, gap: real)
    requires 0.0 <= gap <= size + 3.0 && 0.0 <= size
    requires Apart(drawn, gap) && Above(drawn, at, gap)
    ensures Apart(drawn + MarksOf(lines, at, size), gap)
    ensures Above(drawn + MarksOf(lines, at, size), After(at, size, |lines|), gap)
  {
    if lines == [] {
      assert drawn + [] == drawn;
    } else {
      var n := |lines| - 1;
      NoOverlap(drawn, lines[..n], at, size, gap);
      var before, cursor := drawn + MarksOf(lines[..n], at, size), After(at, size, n);
      AddedBelow(before, cursor, Settled(cursor), Moved(cursor, size), gap, lines[n]);
      assert drawn + MarksOf(lines, at, size) ==
        before + if lines[n] == "" then [] else [Mark(Settled(cursor).page, Settled(cursor).y, Shown(lines[n]))];
    }
  }

  lemma AddedBelow(marks: seq<Mark>, cursor: Slot, slot: Slot, next: Slot, gap: real, line: string)
    requires Apart(marks, gap) && Above(marks, cursor, gap) && slot == Settled(cursor)
    requires 0.0 <= gap && next.page == slot.page && next.y <= slot.y - gap
    ensures var all := marks + if line == "" then [] else [Mark(slot.page, slot.y, Shown(line))];
      Apart(all, gap) && Above(all, next, gap)
  {
  }

  // ----- the same, counted in whole pages -----

  /** A page started at height y takes exactly this many rows. */
  ghost predicate Takes(y: real, size: real, rows: nat) {
    y - rows as real * (size + 3.0) <= MARGIN
    && (rows > 0 ==> MARGIN < y - (rows - 1) as real * (size + 3.0))
  }

  lemma {:induction false} RowOnFirstPage(at: Slot, size: real, rows: nat, n: nat)
    requires 0.0 <= size && Takes(at.y, size, rows) && n <= rows
    ensures After(at, size, n) == Slot(at.page, at.y - n as real * (size + 3.0))
  {
    if n > 0 {
      RowOnFirstPage(at, size, rows, n - 1);
      StillAbove(at.y, size + 3.0, n - 1, rows - 1);
    }
  }

  lemma StillAbove(y: real, step: real, n: nat, last: nat)
    requires n <= last && 0.0 <= step && MARGIN < y - last as real * step
    ensures MARGIN < y - n as real * step
  {
    assert (last - n) as real * step >= 0.0;
    assert last as real * step == n as real * step + (last - n) as real * step;
  }

  lemma {:induction false} AfterAfter(at: Slot, size: real, m: nat, n: nat)
    ensures After(After(at, size, m), size, n) == After(at, size, m + n)
  {
    if n > 0 { AfterAfter(at, size, m, n - 1); }
  }

  /** A cursor at the bottom behaves as one at the top of the next page. */
  lemma {:induction false} BottomIsNextTop(at: Slot, size: real, n: nat)
    requires at.y <= MARGIN && n > 0
    ensures After(at, size, n) == After(Slot(at.page + 1, TOP), size, n)
  {
    if n > 1 { BottomIsNextTop(at, size, n - 1); }
  }

  lemma FullPage(at: Slot, size: real, full: nat, n: nat)
    requires 0.0 <= size && at.y <= MARGIN && Takes(TOP, size, full) && n <= full
    ensures full > 0
    ensures n < full ==> Settled(After(at, size, n)) == Slot(at.page + 1, TOP - n as real * (size + 3.0))
    ensures n == full ==> After(at, size, n).page == at.page + 1 && After(at, size, n).y <= MARGIN
  {
    if full == 0 { assert false; }
    var start := Slot(at.page + 1, TOP);
    if n > 0 {
      BottomIsNextTop(at, size, n);
      RowOnFirstPage(start, size, full, n);
      if n < full { StillAbove(TOP, size + 3.0, n, full - 1); }
    }
  }

  lemma PageMore(pages: nat, full: nat)
    requires pages > 0
    ensures pages * full == full + (pages - 1) * full
  {
  }

  /** From the bottom of a page: after so many full pages, the row of a line is what is left over. */
  lemma {:induction false} RowFromBottom(at: Slot, size: real, full: nat, pages: nat, row: nat)
    requires 0.0 <= size && at.y <= MARGIN && Takes(TOP, size, full) && row < full
    ensures Settled(After(at, size, pages * full + row)) ==
      Slot(at.page + 1 + pages, TOP - row as real * (size + 3.0))
    decreases pages
  {
    if pages == 0 {
      FullPage(at, size, full, row);
    } else {
      FullPage(at, size, full, full);
      PageMore(pages, full);
      var left := (pages - 1) * full + row;
      AfterAfter(at, size, full, left);
      RowFromBottom(After(at, size, full), size, full, pages - 1, row);
    }
  }

  lemma RowOnStartPage(at: Slot, size: real, first: nat, n: nat)
    requires 0.0 <= size && Takes(at.y, size, first) && n < first
    ensures Settled(After(at, size, n)) == Slot(at.page, at.y - n as real * (size + 3.0))
  {
    RowOnFirstPage(at, size, first, n);
    StillAbove(at.y, size + 3.0, n, first - 1);
  }

  lemma RowOnLaterPage(at: Slot, size: real, first: nat, full: nat, pages: nat, row: nat)
    requires 0.0 <= size && Takes(at.y, size, first) && Takes(TOP, size, full) && row < full
    ensures Settled(After(at, size, first + (pages * full + row))) ==
      Slot(at.page + 1 + pages, TOP - row as real * (size + 3.0))
  {
    RowOnFirstPage(at, size, first, first);
    AfterAfter(at, size, first, pages * full + row);
    RowFromBottom(After(at, size, first), size, full, pages, row);
  }

  /** Where any line lands, wherever the cursor starts: row by row down the page it starts on, and
      then in full pages; that is, for line number n, by quotient and remainder. */
  lemma RowByPages(at: Slot, size: real, first: nat, full: nat, n: nat, pages: nat, row: nat)
    requires 0.0 <= size && Takes(at.y, size, first) && Takes(TOP, size, full)
    requires n >= first ==> row < full && n - first == pages * full + row
    ensures Settled(After(at, size, n)) ==
      if n < first then Slot(at.page, at.y - n as real * (size + 3.0))
      else Slot(at.page + 1 + pages, TOP - row as real * (size + 3.0))
  {
    if n < first {
      RowOnStartPage(at, size, first, n);
    } else {
      RowOnLaterPage(at, size, first, full, pages, row);
    }
  }

  /** There is always such a number of rows. */
  lemma {:induction false} RowsThatFit(y: real, size: real) returns (rows: nat)
    requires 0.0 <= size
    ensures Takes(y, size, rows)
    decreases if y <= MARGIN then 0 else (y - MARGIN).Floor + 1
  {
    if y <= MARGIN {
      rows := 0;
    } else {
      rows := RowsThatFit(y - (size + 3.0), size);
      assert y - (size + 3.0) - rows as real * (size + 3.0) == y - (rows + 1) as real * (size + 3.0);
      if rows > 0 {
        assert y - (size + 3.0) - (rows - 1) as real * (size + 3.0) == y - rows as real * (size + 3.0);
      }
      rows := rows + 1;
    }
  }

  // ----- title and body together -----

  /** The whole text export: the title and then the body, each wrapped in its own size. */
  method DrawDocument(pdf: Canvas, titleSheet: Sheet, bodySheet: Sheet, title: string, text: string)
    requires pdf.marks == []
    modifies pdf
    ensures Apart(pdf.marks, BODY_SIZE + 3.0) && OnThePage(pdf.marks)
    ensures TextsOf(pdf.marks) ==
      AllShown(Visible(Wrapped(titleSheet, title))) + AllShown(Visible(Wrapped(bodySheet, text)))
    ensures var titleLines, start := Wrapped(titleSheet, title), Slot(old(pdf.page), 297.0 * 72.0 / 25.4 - 40.0);
      var end := After(start, 15.0, |titleLines|);
      pdf.marks == MarksOf(titleLines, start, 15.0)
                   + MarksOf(Wrapped(bodySheet, text), Slot(end.page, end.y - 6.0), 10.0)
  {
    ghost var start := Slot(pdf.page, TOP);
    var lines := PdfWrap(titleSheet, title);
    var y := DrawLines(pdf, lines, PAGE_HEIGHT - MARGIN, TITLE_SIZE);
    ghost var at := Slot(pdf.page, y - 6.0);
    ghost var titled := pdf.marks;
    var body := PdfWrap(bodySheet, text);
    y := DrawLines(pdf, body, y - 6.0, BODY_SIZE);
    DocumentLaidOut(pdf.marks, titled, lines, body, start, at);
  }


  lemma DocumentApart(title: seq<string>, body: seq<string>, start: Slot, at: Slot)
    requires var cursor := After(start, TITLE_SIZE, |title|); at == Slot(cursor.page, cursor.y - 6.0)
    ensures Apart(MarksOf(title, start, TITLE_SIZE) + MarksOf(body, at, BODY_SIZE), BODY_SIZE + 3.0)
  {
    var first := MarksOf(title, start, TITLE_SIZE);
    NoOverlap([], title, start, TITLE_SIZE, BODY_SIZE + 3.0);
    assert [] + first == first;
    NoOverlap(first, body, at, BODY_SIZE, BODY_SIZE + 3.0);
  }

  lemma DocumentOnThePage(title: seq<string>, body: seq<string>, start: Slot, at: Slot)
    requires start.y <= TOP && at.y <= After(start, TITLE_SIZE, |title|).y
    ensures OnThePage(MarksOf(title, start, TITLE_SIZE) + MarksOf(body, at, BODY_SIZE))
  {
    NothingInTheMargins(title, start, TITLE_SIZE);
    CursorBelowTop(start, TITLE_SIZE, |title|);
    NothingInTheMargins(body, at, BODY_SIZE);
  }

  lemma DocumentLaidOut(marks: seq<Mark>, titled: seq<Mark>, title: seq<string>, body: seq<string>,
                        start: Slot, at: Slot)
    requires start.y == TOP && titled == [] + MarksOf(title, start, TITLE_SIZE)
    requires marks == titled + MarksOf(body, at, BODY_SIZE)
    requires var cursor := After(start, TITLE_SIZE, |title|); at == Slot(cursor.page, cursor.y - 6.0)
    ensures Apart(marks, BODY_SIZE + 3.0) && OnThePage(marks)
    ensures TextsOf(marks) == AllShown(Visible(title)) + AllShown(Visible(body))
    ensures var end := After(start, 15.0, |title|);
      marks == MarksOf(title, start, 15.0) + MarksOf(body, Slot(end.page, end.y - 6.0), 10.0)
  {
    assert titled == MarksOf(title, start, TITLE_SIZE);
    DocumentApart(title, body, start, at);
    DocumentOnThePage(title, body, start, at);
    DrawnOnceInOrder(title, start, TITLE_SIZE);
    DrawnOnceInOrder(body, at, BODY_SIZE);
    TextsApart(MarksOf(title, start, TITLE_SIZE), MarksOf(body, at, BODY_SIZE));
  }

  lemma {:induction false} TextsApart(a: seq<Mark>, b: seq<Mark>)
    ensures TextsOf(a + b) == TextsOf(a) + TextsOf(b)
  {
    if b == [] {
      assert a + b == a;
    } else {
      assert (a + b)[..|a + b| - 1] == a + b[..|b| - 1];
      TextsApart(a, b[..|b| - 1]);
    }
  }
}
