/** The boot text console: a cell buffer with delayed wrapping, against an unbounded scrollback. */
module BootConsole {
  import opened Arithmetic

  const BLANK: bv16 := 0x0720
  const CARRIAGE_RETURN: bv8 := 13
  const LINE_FEED: bv8 := 10

  type Line = seq<bv16>

  /** The cell drawn for one byte; unprintable bytes are drawn as a question mark. */
  function Glyph(ch: bv8): bv16 {
    0x0700 | (if ch < 32 || ch > 126 then 63 else ch) as bv16
  }

  function BlankLine(width: nat): (line: Line)
    ensures |line| == width
  {
    seq(width, i => BLANK)
  }

  // ---------------------------------------------------------------- the scrollback model

  /** Every line ever started, and the column of the next byte on the last one. */
  datatype History = History(lines: seq<Line>, column: nat) {
    ghost predicate Valid(width: nat) {
      lines != [] && column <= width && forall i :: 0 <= i < |lines| ==> |lines[i]| == width
    }
  }

  function Start(width: nat): History {
    History([BlankLine(width)], 0)
  }

  function NewLine(h: History, width: nat): History {
    History(h.lines + [BlankLine(width)], 0)
  }

  function Draw(h: History, ch: bv8): History
    requires h.lines != [] && h.column < |h.lines[|h.lines| - 1]|
  {
    var last := |h.lines| - 1;
    History(h.lines[last := h.lines[last][h.column := Glyph(ch)]], h.column + 1)
  }

  /** One byte. Wrapping waits for the next printable byte. */
  function Put(h: History, width: nat, ch: bv8): (r: History)
    requires h.Valid(width) && width >= 1
    ensures r.Valid(width)
  {
    if ch == CARRIAGE_RETURN then h.(column := 0)
    else if ch == LINE_FEED then NewLine(h, width)
    else Draw(if h.column == width then NewLine(h, width) else h, ch)
  }

  function Run(h: History, width: nat, text: seq<bv8>): (r: History)
    requires h.Valid(width) && width >= 1
    ensures r.Valid(width)
  {
    if text == [] then h else Put(Run(h, width, text[..|text| - 1]), width, text[|text| - 1])
  }

  /** Row `y` of the screen: the last `height` lines, top aligned until the screen is full. */
  function ScreenLine(h: History, width: nat, height: nat, y: nat): Line
    requires y < height
  {
    var first := if |h.lines| <= height then 0 else |h.lines| - height;
    if first + y < |h.lines| then h.lines[first + y] else BlankLine(width)
  }

  function CursorRow(h: History, height: nat): int {
    if |h.lines| <= height then |h.lines| - 1 else height - 1
  }

  // ---------------------------------------------------------------- what the model says about text

  predicate Printable(ch: bv8) {
    ch != 13 && ch != 10
  }

  /** How a byte shows: itself between space and tilde, otherwise a question mark, grey on black. */
  function Shown(ch: bv8): bv16 {
    if 32 <= ch <= 126 then 0x0700 + ch as bv16 else 0x073f
  }

  lemma GlyphShown(ch: bv8)
    ensures Glyph(ch) == Shown(ch)
  {
  }

  /** Rows that n printable bytes occupy: max(1, ceil(n / width)). */
  function Rows(n: nat, width: nat): nat
    requires width >= 1
  {
    if n == 0 then 1 else (n + width - 1) / width
  }

  lemma RowsExact(n: nat, width: nat, rows: nat)
    requires width >= 1 && n <= rows * width && (if n == 0 then rows == 1 else (rows - 1) * width < n)
    ensures Rows(n, width) == rows
  {
    if n > 0 {
      Divides(n + width - 1, width, rows, n + width - 1 - rows * width);
    }
  }

  /** Row k of `text` laid out `width` cells to a row, blank past its end. */
  function RowOf(text: seq<bv8>, width: nat, k: nat): Line {
    seq(width, x requires 0 <= x < width =>
      if k * width + x < |text| then Shown(text[k * width + x]) else 0x0720)
  }

  /** The same, written over the line `under`: past its end the first row still shows that line. */
  function RowOver(text: seq<bv8>, width: nat, k: nat, under: Line): Line
    requires |under| == width
  {
    seq(width, x requires 0 <= x < width =>
      if k * width + x < |text| then Glyph(text[k * width + x]) else if k == 0 then under[x] else BLANK)
  }

  /** What one byte does to the scrollback, cell by cell: 13 returns to column zero, 10 starts a blank line,
      any other byte fills the cell at the cursor, on a new line if the last one is full. */
  lemma ByteExactly(h: History, width: nat, ch: bv8)
    requires h.Valid(width) && width >= 1
    ensures
      var r, last, wraps := Put(h, width, ch), |h.lines| - 1, Printable(ch) && h.column == width;
      && (forall i :: 0 <= i < last ==> r.lines[i] == h.lines[i])
      && |r.lines| == |h.lines| + (if ch == 10 || wraps then 1 else 0)
      && r.column == (if ch == 13 || ch == 10 then 0 else if wraps then 1 else h.column + 1)
      && (forall x :: 0 <= x < width ==>
            r.lines[last][x] == if Printable(ch) && !wraps && x == h.column then Shown(ch) else h.lines[last][x])
      && (ch == 10 || wraps ==>
            forall x :: 0 <= x < width ==>
              r.lines[|h.lines|][x] == if wraps && x == 0 then Shown(ch) else 0x0720)
  {
    hide Glyph, Shown;
    GlyphShown(ch);
  }

  lemma RowOverBlank(text: seq<bv8>, width: nat, k: nat, under: Line)
    requires |under| == width && (k > 0 || under == BlankLine(width) || width <= |text|)
    ensures RowOver(text, width, k, under) == RowOf(text, width, k)
  {
    hide Glyph, Shown;
    forall ch: bv8 ensures Glyph(ch) == Shown(ch) { GlyphShown(ch); }
  }

  /** The last `rows` lines of `h` hold `text`, laid out from the start of the line `under`, and the
      cursor is behind its last byte. */
  ghost predicate Holds(h: History, base: nat, rows: nat, width: nat, text: seq<bv8>, under: Line) {
    && h.Valid(width) && |h.lines| == base + rows && rows >= 1 && |under| == width
    && |text| == (rows - 1) * width + h.column
    && (h.column == 0 ==> rows == 1)
    && forall k :: 0 <= k < rows ==> h.lines[base + k] == RowOver(text, width, k, under)
  }

  lemma RowDrawn(text: seq<bv8>, ch: bv8, width: nat, row: nat, column: nat, under: Line)
    requires |text| == row * width + column && column < width && |under| == width
    ensures RowOver(text + [ch], width, row, under) == RowOver(text, width, row, under)[column := Glyph(ch)]
  {
  }

  lemma RowKept(text: seq<bv8>, ch: bv8, width: nat, k: nat, under: Line)
    requires k * width + width <= |text| && |under| == width
    ensures RowOver(text + [ch], width, k, under) == RowOver(text, width, k, under)
  {
  }

  lemma EarlierRow(k: nat, row: nat, width: nat)
    requires k < row
    ensures k * width + width <= row * width
  {
    assert row * width == (k + 1) * width + (row - k - 1) * width;
  }

  lemma HoldsDraw(h: History, base: nat, rows: nat, width: nat, text: seq<bv8>, under: Line, ch: bv8)
    requires h.Valid(width) && |h.lines| == base + rows && rows >= 1 && |under| == width
    requires h.column < width && |text| == (rows - 1) * width + h.column
    requires forall k :: 0 <= k < rows ==> h.lines[base + k] == RowOver(text, width, k, under)
    ensures Holds(Draw(h, ch), base, rows, width, text + [ch], under)
  {
    var r := Draw(h, ch);
    forall k | 0 <= k < rows ensures r.lines[base + k] == RowOver(text + [ch], width, k, under) {
      if k == rows - 1 {
        RowDrawn(text, ch, width, k, h.column, under);
      } else {
        EarlierRow(k, rows - 1, width);
        RowKept(text, ch, width, k, under);
      }
    }
  }

  lemma HoldsWrap(h: History, base: nat, rows: nat, width: nat, text: seq<bv8>, under: Line)
    requires Holds(h, base, rows, width, text, under) && h.column == width >= 1
    ensures |text| == rows * width
    ensures forall k :: 0 <= k < rows + 1 ==> NewLine(h, width).lines[base + k] == RowOver(text, width, k, under)
  {
    assert rows * width == (rows - 1) * width + width;
    assert RowOver(text, width, rows, under) == BlankLine(width);
  }

  lemma HoldsPut(h: History, base: nat, rows: nat, width: nat, text: seq<bv8>, under: Line, ch: bv8)
    requires Holds(h, base, rows, width, text, under) && width >= 1 && Printable(ch)
    ensures Holds(Put(h, width, ch), base, if h.column == width then rows + 1 else rows, width, text + [ch], under)
  {
    if h.column == width {
      HoldsWrap(h, base, rows, width, text, under);
      HoldsDraw(NewLine(h, width), base, rows + 1, width, text, under, ch);
    } else {
      HoldsDraw(h, base, rows, width, text, under, ch);
    }
  }

  lemma {:induction false} PrintableHolds(h: History, width: nat, text: seq<bv8>) returns (rows: nat)
    requires width >= 1 && h.Valid(width) && h.column == 0
    requires forall i :: 0 <= i < |text| ==> Printable(text[i])
    ensures Holds(Run(h, width, text), |h.lines| - 1, rows, width, text, h.lines[|h.lines| - 1])
    ensures Run(h, width, text).lines[..|h.lines| - 1] == h.lines[..|h.lines| - 1]
  {
    var base, under := |h.lines| - 1, h.lines[|h.lines| - 1];
    if text == [] {
      rows := 1;
      assert RowOver(text, width, 0, under) == under;
    } else {
      var n := |text| - 1;
      var prior := text[..n];
      rows := PrintableHolds(h, width, prior);
      var r := Run(h, width, prior);
      HoldsPut(r, base, rows, width, prior, under, text[n]);
      assert prior + [text[n]] == text;
      rows := if r.column == width then rows + 1 else rows;
    }
  }

  lemma LineFed(h: History, width: nat, text: seq<bv8>)
    requires width >= 1 && h.Valid(width)
    ensures Run(h, width, text + [LINE_FEED]) == NewLine(Run(h, width, text), width)
  {
    var full := text + [LINE_FEED];
    assert full[..|full| - 1] == text;
  }

  /** n printable bytes sent from column zero, whatever the line already shows (as after a carriage
      return), occupy exactly max(1, ceil(n/width)) rows, which hold them in order; the first row
      keeps what it showed past their end, and a following line feed advances by that many rows. */
  lemma PrintableLineAdvance(h: History, width: nat, text: seq<bv8>)
    requires width >= 1 && h.Valid(width) && h.column == 0
    requires forall i :: 0 <= i < |text| ==> Printable(text[i])
    ensures
      var r, base, rows := Run(h, width, text + [LINE_FEED]), |h.lines| - 1, Rows(|text|, width);
      && |r.lines| == |h.lines| + rows && r.column == 0
      && r.lines[..base] == h.lines[..base]
      && (forall k :: 0 <= k < rows ==> r.lines[base + k] == RowOver(text, width, k, h.lines[base]))
      && r.lines[base + rows] == BlankLine(width)
  {
    hide Run, Put, RowOver, Rows, BlankLine;
    var rows := PrintableHolds(h, width, text);
    RowsExact(|text|, width, rows);
    LineFed(h, width, text);
  }

  /** On a fresh line the rows show the text and nothing else. */
  lemma FreshLineAdvance(h: History, width: nat, text: seq<bv8>)
    requires width >= 1 && h.Valid(width) && h.column == 0 && h.lines[|h.lines| - 1] == BlankLine(width)
    requires forall i :: 0 <= i < |text| ==> Printable(text[i])
    ensures
      var r, base, rows := Run(h, width, text + [LINE_FEED]), |h.lines| - 1, Rows(|text|, width);
      && |r.lines| == |h.lines| + rows && r.column == 0
      && r.lines[..base] == h.lines[..base]
      && (forall k :: 0 <= k < rows ==> r.lines[base + k] == RowOf(text, width, k))
      && r.lines[base + rows] == BlankLine(width)
  {
    PrintableLineAdvance(h, width, text);
    forall k: nat | k < Rows(|text|, width)
      ensures RowOver(text, width, k, BlankLine(width)) == RowOf(text, width, k)
    {
      RowOverBlank(text, width, k, BlankLine(width));
    }
  }

  lemma {:induction false} RunAppend(h: History, width: nat, a: seq<bv8>, b: seq<bv8>)
    requires h.Valid(width) && width >= 1
    ensures Run(h, width, a + b) == Run(Run(h, width, a), width, b)
  {
    if b == [] {
      assert a + b == a;
    } else {
      var n := |b| - 1;
      RunAppend(h, width, a, b[..n]);
      assert (a + b)[..|a + b| - 1] == a + b[..n];
    }
  }

  /** A paragraph on its own rows. */
  function Wrapped(text: seq<bv8>, width: nat): seq<Line>
    requires width >= 1
  {
    seq(Rows(|text|, width), k requires 0 <= k < Rows(|text|, width) => RowOf(text, width, k))
  }

  function Layout(paragraphs: seq<seq<bv8>>, width: nat): seq<Line>
    requires width >= 1
  {
    if paragraphs == [] then []
    else Layout(paragraphs[..|paragraphs| - 1], width) + Wrapped(paragraphs[|paragraphs| - 1], width)
  }

  function Text(paragraphs: seq<seq<bv8>>): seq<bv8> {
    if paragraphs == [] then []
    else Text(paragraphs[..|paragraphs| - 1]) + (paragraphs[|paragraphs| - 1] + [10])
  }

  /** One more paragraph under the lines `above`. */
  lemma NextParagraph(above: seq<Line>, width: nat, text: seq<bv8>)
    requires width >= 1 && History(above + [BlankLine(width)], 0).Valid(width)
    requires forall i :: 0 <= i < |text| ==> Printable(text[i])
    ensures Run(History(above + [BlankLine(width)], 0), width, text + [LINE_FEED]) ==
            History(above + Wrapped(text, width) + [BlankLine(width)], 0)
  {
    hide Run, Rows, RowOf, BlankLine;
    var h := History(above + [BlankLine(width)], 0);
    FreshLineAdvance(h, width, text);
    var r := Run(h, width, text + [LINE_FEED]);
    assert r.lines[..|above|] == h.lines[..|above|] == above;
    assert r.lines == above + Wrapped(text, width) + [BlankLine(width)];
  }

  /** For text without carriage returns the whole scrollback is the wrapped paragraphs, one after
      another, and a fresh line under them. */
  lemma {:induction false} TextLayout(paragraphs: seq<seq<bv8>>, width: nat)
    requires width >= 1
    requires forall i, j :: 0 <= i < |paragraphs| && 0 <= j < |paragraphs[i]| ==> Printable(paragraphs[i][j])
    ensures Run(Start(width), width, Text(paragraphs)) ==
            History(Layout(paragraphs, width) + [BlankLine(width)], 0)
  {
    hide Put, Wrapped, BlankLine;
    if paragraphs == [] {
      assert Layout(paragraphs, width) + [BlankLine(width)] == [BlankLine(width)];
    } else {
      var n := |paragraphs| - 1;
      TextLayout(paragraphs[..n], width);
      RunAppend(Start(width), width, Text(paragraphs[..n]), paragraphs[n] + [LINE_FEED]);
      NextParagraph(Layout(paragraphs[..n], width), width, paragraphs[n]);
    }
  }

  // ---------------------------------------------------------------- the screen

  /** Index of column x of row y. */
  function Cell(y: nat, x: nat, stride: nat): nat {
    y * stride + x
  }

  lemma CellBound(y: nat, x: nat, stride: nat, height: nat)
    requires y < height && x < stride
    ensures Cell(y, x, stride) < height * stride
  {
    EarlierRow(y, height, stride);
  }

  lemma CellUnique(y: nat, x: nat, y': nat, x': nat, stride: nat)
    requires x < stride && x' < stride && Cell(y, x, stride) == Cell(y', x', stride)
    ensures y == y' && x == x'
  {
    Divides(Cell(y, x, stride), stride, y, x);
    Divides(Cell(y', x', stride), stride, y', x');
  }

  /** The visible part of the buffer holds `rows`. */
  ghost predicate Pane(cells: seq<bv16>, stride: nat, width: nat, height: nat, rows: seq<Line>) {
    && |rows| == height && width <= stride && height * stride <= |cells|
    && (forall y :: 0 <= y < height ==> |rows[y]| == width)
    && forall y: nat, x: nat :: y < height && x < width ==>
         (CellBound(y, x, stride, height); cells[Cell(y, x, stride)] == rows[y][x])
  }

  /** Row by row: column x of row y is word y * stride + x. */
  lemma PaneExactly(cells: seq<bv16>, stride: nat, width: nat, height: nat, rows: seq<Line>, y: nat, x: nat)
    requires Pane(cells, stride, width, height, rows) && y < height && x < width
    ensures y * stride + x < |cells| && cells[y * stride + x] == rows[y][x]
  {
    CellBound(y, x, stride, height);
  }

  /** Every word right of the width or below the height is untouched. */
  lemma MarginExactly(before: seq<bv16>, after: seq<bv16>, stride: nat, width: nat, height: nat, i: nat)
    requires SameMargin(before, after, stride, width, height) && stride > 0 && i < |before|
    requires i % stride >= width || i / stride >= height
    ensures after[i] == before[i]
  {
    assert Cell(i / stride, i % stride, stride) == i;
  }

  /** The visible part of a buffer. */
  ghost function Visible(cells: seq<bv16>, stride: nat, width: nat, height: nat): (rows: seq<Line>)
    requires width <= stride && height * stride <= |cells|
    ensures Pane(cells, stride, width, height, rows)
  {
    seq(height, y requires 0 <= y < height =>
      seq(width, x requires 0 <= x < width =>
        (CellBound(y, x, stride, height); cells[Cell(y, x, stride)])))
  }

  /** Cells outside the visible part are the same in both buffers. */
  ghost predicate SameMargin(before: seq<bv16>, after: seq<bv16>, stride: nat, width: nat, height: nat) {
    && |after| == |before|
    && forall y: nat, x: nat :: x < stride && !(y < height && x < width) && Cell(y, x, stride) < |before| ==>
         after[Cell(y, x, stride)] == before[Cell(y, x, stride)]
  }

  /** Storing one visible cell changes one element of one row. */
  lemma PaneStore(cells: seq<bv16>, stride: nat, width: nat, height: nat, rows: seq<Line>, y: nat, x: nat, v: bv16)
    requires Pane(cells, stride, width, height, rows) && y < height && x < width
    ensures Cell(y, x, stride) < |cells|
    ensures Pane(cells[Cell(y, x, stride) := v], stride, width, height, rows[y := rows[y][x := v]])
    ensures SameMargin(cells, cells[Cell(y, x, stride) := v], stride, width, height)
  {
    CellBound(y, x, stride, height);
    var i := Cell(y, x, stride);
    forall y': nat, x': nat | x' < stride && Cell(y', x', stride) == i ensures y' == y && x' == x {
      CellUnique(y', x', y, x, stride);
    }
    forall y': nat, x': nat | y' < height && x' < stride ensures Cell(y', x', stride) < |cells| {
      CellBound(y', x', stride, height);
    }
  }

  lemma MarginTransitive(a: seq<bv16>, b: seq<bv16>, c: seq<bv16>, stride: nat, width: nat, height: nat)
    requires SameMargin(a, b, stride, width, height) && SameMargin(b, c, stride, width, height)
    ensures SameMargin(a, c, stride, width, height)
  {
  }

  /** The rows the screen shows for a history. */
  function Screen(h: History, width: nat, height: nat): (rows: seq<Line>)
    ensures |rows| == height
  {
    seq(height, y requires 0 <= y < height => ScreenLine(h, width, height, y))
  }

  /** The last lines, top aligned with blank lines below while there are fewer than the screen has rows. */
  lemma ScreenExactly(h: History, width: nat, height: nat)
    requires h.Valid(width) && height >= 1
    ensures |h.lines| >= height ==>
      Screen(h, width, height) == h.lines[|h.lines| - height..] && CursorRow(h, height) == height - 1
    ensures |h.lines| < height ==>
      && Screen(h, width, height) == h.lines + seq(height - |h.lines|, y => seq(width, x => 0x0720))
      && CursorRow(h, height) == |h.lines| - 1
  {
    assert BlankLine(width) == seq(width, x => 0x0720);
  }

  lemma ScreenNewLine(h: History, width: nat, height: nat)
    requires h.Valid(width) && height >= 1
    ensures
      var before, after := Screen(h, width, height), Screen(NewLine(h, width), width, height);
      && after == (if |h.lines| < height then before else before[1..] + [BlankLine(width)])
      && CursorRow(NewLine(h, width), height) == if |h.lines| < height then CursorRow(h, height) + 1 else height - 1
  {
  }

  lemma ScreenDraw(h: History, width: nat, height: nat, ch: bv8)
    requires h.Valid(width) && height >= 1 && h.column < width
    ensures
      var row, before := CursorRow(h, height), Screen(h, width, height);
      && 0 <= row < height && |before[row]| == width
      && Screen(Draw(h, ch), width, height) == before[row := before[row][h.column := Glyph(ch)]]
      && CursorRow(Draw(h, ch), height) == row
  {
  }

  // ---------------------------------------------------------------- the console

  class Console {
    var cells: array<bv16>
    var stride: nat
    var width: nat
    var height: nat
    var row: nat
    var column: nat
    var enabled: bool
    var busy: bool

    constructor (window: array<bv16>)
      ensures cells == window && !enabled && !busy
    {
      cells, stride, width, height, row, column := window, 0, 0, 0, 0, 0;
      enabled, busy := false, false;
    }

    /** The screen and the cursor are those of `h`. */
    ghost predicate Shows(h: History)
      reads this, cells
    {
      && width >= 1 && height >= 1 && h.Valid(width)
      && column == h.column && row == CursorRow(h, height)
      && Pane(cells[..], stride, width, height, Screen(h, width, height))
    }

    method Store(y: nat, x: nat, v: bv16, ghost rows: seq<Line>)
      requires Pane(cells[..], stride, width, height, rows) && y < height && x < width
      modifies cells
      ensures Pane(cells[..], stride, width, height, rows[y := rows[y][x := v]])
      ensures SameMargin(old(cells[..]), cells[..], stride, width, height)
    {
      PaneStore(cells[..], stride, width, height, rows, y, x, v);
      ghost var before := cells[..];
      cells[y * stride + x] := v;
      assert cells[..] == before[Cell(y, x, stride) := v];
    }

    method BlankRow(y: nat, ghost rows: seq<Line>)
      requires Pane(cells[..], stride, width, height, rows) && y < height
      modifies cells
      ensures Pane(cells[..], stride, width, height, rows[y := BlankLine(width)])
      ensures SameMargin(old(cells[..]), cells[..], stride, width, height)
    {
      ghost var line := rows[y];
      assert rows[y := line] == rows;
      for x := 0 to width
        invariant |line| == width && forall i :: 0 <= i < x ==> line[i] == BLANK
        invariant Pane(cells[..], stride, width, height, rows[y := line])
        invariant SameMargin(old(cells[..]), cells[..], stride, width, height)
      {
        ghost var before := cells[..];
        Store(y, x, BLANK, rows[y := line]);
        MarginTransitive(old(cells[..]), before, cells[..], stride, width, height);
        assert rows[y := line][y := line[x := BLANK]] == rows[y := line[x := BLANK]];
        line := line[x := BLANK];
      }
      assert line == BlankLine(width);
    }

    method CopyRowUp(y: nat, ghost rows: seq<Line>)
      requires Pane(cells[..], stride, width, height, rows) && 1 <= y < height
      modifies cells
      ensures Pane(cells[..], stride, width, height, rows[y - 1 := rows[y]])
      ensures SameMargin(old(cells[..]), cells[..], stride, width, height)
    {
      ghost var line := rows[y - 1];
      assert rows[y - 1 := line] == rows;
      for x := 0 to width
        invariant |line| == width && forall i :: 0 <= i < x ==> line[i] == rows[y][i]
        invariant Pane(cells[..], stride, width, height, rows[y - 1 := line])
        invariant SameMargin(old(cells[..]), cells[..], stride, width, height)
      {
        ghost var before := cells[..];
        CellBound(y, x, stride, height);
        var v := cells[y * stride + x];
        assert v == cells[..][Cell(y, x, stride)] == rows[y][x];
        Store(y - 1, x, v, rows[y - 1 := line]);
        MarginTransitive(old(cells[..]), before, cells[..], stride, width, height);
        assert rows[y - 1 := line][y - 1 := line[x := v]] == rows[y - 1 := line[x := v]];
        line := line[x := v];
      }
      assert line == rows[y];
    }

    method Scroll(ghost rows: seq<Line>)
      requires Pane(cells[..], stride, width, height, rows) && height >= 1
      modifies cells
      ensures Pane(cells[..], stride, width, height, rows[1..] + [BlankLine(width)])
      ensures SameMargin(old(cells[..]), cells[..], stride, width, height)
    {
      ghost var now := rows;
      for y := 1 to height
        invariant |now| == height && now[y - 1..] == rows[y - 1..]
        invariant forall k :: 0 <= k < y - 1 ==> now[k] == rows[k + 1]
        invariant Pane(cells[..], stride, width, height, now)
        invariant SameMargin(old(cells[..]), cells[..], stride, width, height)
      {
        ghost var before := cells[..];
        CopyRowUp(y, now);
        MarginTransitive(old(cells[..]), before, cells[..], stride, width, height);
        assert now[y] == now[y - 1..][1] == rows[y];
        assert now[y..] == now[y - 1..][1..];
        now := now[y - 1 := now[y]];
      }
      ghost var before := cells[..];
      BlankRow(height - 1, now);
      MarginTransitive(old(cells[..]), before, cells[..], stride, width, height);
      assert now[height - 1 := BlankLine(width)] == rows[1..] + [BlankLine(width)];
    }

    method NextLine(ghost h: History)
      requires Shows(h)
      modifies this`row, this`column, cells
      ensures Shows(NewLine(h, width))
      ensures SameMargin(old(cells[..]), cells[..], stride, width, height)
    {
      ScreenNewLine(h, width, height);
      column := 0;
      row := row + 1;
      if row < height { return; }
      Scroll(Screen(h, width, height));
      row := height - 1;
    }

    /** One byte: nothing unless enabled and idle, otherwise exactly one step of the history. */
    method Putc(ch: bv8, ghost h: History)
      requires enabled ==> Shows(h)
      modifies this`row, this`column, this`busy, cells
      ensures !enabled || old(busy) ==> unchanged(this) && unchanged(cells)
      ensures enabled && !old(busy) ==> Shows(Put(h, width, ch)) && !busy
      ensures SameMargin(old(cells[..]), cells[..], stride, width, height)
    {
      if !enabled || busy { return; }
      busy := true;
      if ch == CARRIAGE_RETURN {
        column := 0;
        assert Screen(h.(column := 0), width, height) == Screen(h, width, height);
      } else if ch == LINE_FEED {
        NextLine(h);
      } else {
        ghost var h' := h;
        if column == width {
          h' := NewLine(h, width);
          NextLine(h);
        }
        ghost var before := cells[..];
        ScreenDraw(h', width, height, ch);
        Store(row, column, Glyph(ch), Screen(h', width, height));
        MarginTransitive(old(cells[..]), before, cells[..], stride, width, height);
        column := column + 1;
      }
      busy := false;
    }

    /** Any byte sequence: the screen is the rendering of the whole run. */
    method Write(text: seq<bv8>, ghost h: History)
      requires enabled && !busy && Shows(h)
      modifies this`row, this`column, this`busy, cells
      ensures !busy && Shows(Run(h, width, text))
      ensures SameMargin(old(cells[..]), cells[..], stride, width, height)
    {
      assert text[..0] == [];
      for i := 0 to |text|
        invariant !busy && Shows(Run(h, width, text[..i]))
        invariant SameMargin(old(cells[..]), cells[..], stride, width, height)
      {
        ghost var before := cells[..];
        assert text[..i + 1][..i] == text[..i];
        Putc(text[i], Run(h, width, text[..i]));
        MarginTransitive(old(cells[..]), before, cells[..], stride, width, height);
      }
      assert text[..|text|] == text;
    }

    /** `accepted` is the generated surface check; a surface it accepts fits the window. */
    method Enable(accepted: bool, pitch: nat, w: nat, hgt: nat, window: array<bv16>) returns (ok: bool)
      requires accepted ==> w >= 1 && hgt >= 1 && w <= pitch / 2 && hgt * (pitch / 2) <= window.Length
      modifies this, window
      ensures ok == accepted == enabled
      ensures !ok ==> window[..] == old(window[..])
      ensures ok ==> cells == window && !busy && width == w && height == hgt && stride == pitch / 2
      ensures ok ==> Shows(Start(w)) && SameMargin(old(window[..]), window[..], stride, width, height)
    {
      enabled := false;
      if !accepted { return false; }
      cells, stride, width, height, row, column := window, pitch / 2, w, hgt, 0, 0;
      busy := true;
      ghost var rows := Visible(window[..], pitch / 2, w, hgt);
      for y := 0 to height
        invariant cells == window && stride == pitch / 2 && width == w && height == hgt
        invariant row == 0 && column == 0 && busy && !enabled
        invariant |rows| == hgt && forall k :: 0 <= k < y ==> rows[k] == BlankLine(w)
        invariant Pane(cells[..], stride, width, height, rows)
        invariant SameMargin(old(window[..]), cells[..], stride, width, height)
      {
        ghost var before := cells[..];
        BlankRow(y, rows);
        MarginTransitive(old(window[..]), before, cells[..], stride, width, height);
        rows := rows[y := BlankLine(w)];
      }
      assert rows == Screen(Start(w), w, hgt);
      busy := false;
      enabled := true;
      ok := true;
    }
  }
}
