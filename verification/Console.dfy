/** The text screen: a buffer of 25 rows of 80 character and attribute bytes that is proved to be a
    window on an unbounded layout of the text written to it. */
module Console {
  import opened Words

  type Byte = x: int | 0 <= x < 256

  const TAB: Byte := 9
  const NEWLINE: Byte := 10
  const SPACE: Byte := 32
  const ZERO: Byte := 48
  /** What kc_clear and kc_scroll put into a cell, and the attribute of every cell. */
  const EMPTY: Byte := 0
  const GREY: Byte := 7

  // ----- The unbounded layout -----

  function Repeat(c: Byte, n: nat): seq<Byte> { seq(n, i => c) }

  /** Columns from the cursor to the end of its row, and to the next tab stop. */
  function ToRowEnd(at: nat): nat { 80 - at % 80 }
  function ToTabStop(at: nat): nat { (8 - at % 8) % 8 }

  /** Unbounded rows of 80 columns, one after the other, up to the cursor: its length is where the
      next character goes. */
  function Extend(page: seq<Byte>, c: Byte): seq<Byte> {
    if c == NEWLINE then page + Repeat(EMPTY, ToRowEnd(|page|))
    else if c == TAB then page + Repeat(SPACE, ToTabStop(|page|))
    else page + [c]
  }

  function Layout(page: seq<Byte>, text: seq<Byte>): seq<Byte>
    decreases |text|
  {
    if text == [] then page else Layout(Extend(page, text[0]), text[1..])
  }

  lemma {:induction false} LayoutConcat(page: seq<Byte>, a: seq<Byte>, b: seq<Byte>)
    ensures Layout(page, a + b) == Layout(Layout(page, a), b)
    decreases |a|
  {
    if a == [] {
      assert a + b == b;
    } else {
      assert (a + b)[1..] == a[1..] + b;
      LayoutConcat(Extend(page, a[0]), a[1..], b);
    }
  }

  predicate Plain(text: seq<Byte>) { NEWLINE !in text && TAB !in text }

  /** Text without newlines and tabs fills the rows from left to right: it wraps at column 80. */
  lemma {:induction false} PlainTextWraps(page: seq<Byte>, text: seq<Byte>)
    requires Plain(text)
    ensures Layout(page, text) == page + text
    decreases |text|
  {
    if text == [] {
      assert page + text == page;
    } else {
      PlainTextWraps(Extend(page, text[0]), text[1..]);
      assert page + [text[0]] + text[1..] == page + text;
    }
  }

  lemma Remainder(a: int, q: int, r: int)
    requires a == 8 * q + r && 0 <= r < 8
    ensures a % 8 == r
  {
  }

  /** Tab stops are multiples of 8 in the row and in the whole layout: 8 divides 80. */
  lemma ColumnsOfEight(at: nat)
    ensures at % 80 % 8 == at % 8
  {
  }

  lemma TabStep(at: nat)
    ensures at % 80 % 8 != 0 <==> ToTabStop(at) != 0
    ensures ToTabStop(at) != 0 ==> ToTabStop(at + 1) == ToTabStop(at) - 1
  {
    ColumnsOfEight(at);
    var r := at % 8;
    if r == 7 { Remainder(at + 1, at / 8 + 1, 0); } else { Remainder(at + 1, at / 8, r + 1); }
  }

  /** A tab writes the fewest spaces, possibly none, that lead to a multiple of 8 columns. */
  lemma TabReachesNextStop(page: seq<Byte>, n: nat)
    ensures Extend(page, TAB) == Layout(page, Repeat(SPACE, ToTabStop(|page|)))
    ensures |Extend(page, TAB)| % 80 % 8 == 0
    ensures n < ToTabStop(|page|) ==> (|page| + n) % 80 % 8 != 0
  {
    PlainTextWraps(page, Repeat(SPACE, ToTabStop(|page|)));
    TabStopAhead(|page|);
    if n < ToTabStop(|page|) { NoTabStopBetween(|page|, n); }
  }

  lemma TabStopAhead(at: nat)
    ensures (at + ToTabStop(at)) % 80 % 8 == 0
  {
    ColumnsOfEight(at + ToTabStop(at));
    Remainder(at + ToTabStop(at), if at % 8 == 0 then at / 8 else at / 8 + 1, 0);
  }

  lemma NoTabStopBetween(at: nat, n: nat)
    requires n < ToTabStop(at)
    ensures (at + n) % 80 % 8 != 0
  {
    ColumnsOfEight(at + n);
    Remainder(at + n, at / 8, at % 8 + n);
  }

  /** A line that starts a row and ends with a newline takes one row more than it fills: a line of
      exactly 80 characters, and no other of up to 80, leaves an empty row behind it. */
  lemma LineRows(page: seq<Byte>, line: seq<Byte>)
    requires Plain(line) && |page| % 80 == 0
    ensures var next := Layout(page, line + [NEWLINE]);
      |next| == |page| + (|line| / 80 + 1) * 80 && next == page + line + Repeat(EMPTY, ToRowEnd(|line|))
    ensures ToRowEnd(|line|) == 80 <==> |line| % 80 == 0
  {
    LayoutConcat(page, line, [NEWLINE]);
    PlainTextWraps(page, line);
    assert Layout(page + line, [NEWLINE]) == Extend(page + line, NEWLINE);
    ColumnOf(|page| / 80, |page|, |line|);
  }

  lemma ColumnOf(rows: nat, at: nat, n: nat)
    requires at == rows * 80
    ensures (at + n) % 80 == n % 80 && n + ToRowEnd(n) == (n / 80 + 1) * 80
  {
  }

  /** What has been written stays as it is: the layout only grows. */
  lemma {:induction false} LayoutGrows(page: seq<Byte>, text: seq<Byte>)
    ensures page <= Layout(page, text)
    decreases |text|
  {
    if text != [] {
      LayoutGrows(Extend(page, text[0]), text[1..]);
    }
  }

  /** Lines that fit in a row, each ended by a newline. */
  function Lines(lines: seq<seq<Byte>>): seq<Byte> {
    if lines == [] then [] else lines[0] + [NEWLINE] + Lines(lines[1..])
  }

  predicate FitRows(lines: seq<seq<Byte>>) { forall i :: 0 <= i < |lines| ==> Plain(lines[i]) && |lines[i]| < 80 }

  /** A row that starts with the line. */
  function Row(line: seq<Byte>): (row: seq<Byte>)
    requires |line| < 80
    ensures |row| == 80 && forall j :: 0 <= j < 80 ==> row[j] == if j < |line| then line[j] else EMPTY
  {
    line + Repeat(EMPTY, 80 - |line|)
  }

  /** The first of such lines takes the first row. */
  lemma FirstLineRow(page: seq<Byte>, lines: seq<seq<Byte>>)
    requires |page| % 80 == 0 && FitRows(lines) && lines != []
    ensures |page + Row(lines[0])| % 80 == 0
    ensures Layout(page, Lines(lines)) == Layout(page + Row(lines[0]), Lines(lines[1..]))
  {
    LayoutConcat(page, lines[0] + [NEWLINE], Lines(lines[1..]));
    LineRows(page, lines[0]);
    assert page + lines[0] + Repeat(EMPTY, ToRowEnd(|lines[0]|)) == page + Row(lines[0]);
  }

  function Rows(lines: seq<seq<Byte>>): seq<Byte>
    requires FitRows(lines)
  {
    if lines == [] then [] else Row(lines[0]) + Rows(lines[1..])
  }

  lemma AppendTwice(a: seq<Byte>, b: seq<Byte>, c: seq<Byte>)
    ensures a + b + c == a + (b + c)
  {
  }

  /** Such lines are laid out one to a row. */
  lemma {:induction false} LinesRows(page: seq<Byte>, lines: seq<seq<Byte>>)
    requires |page| % 80 == 0 && FitRows(lines)
    ensures Layout(page, Lines(lines)) == page + Rows(lines)
    decreases |lines|
  {
    if lines == [] {
      assert page + [] == page;
    } else {
      FirstLineRow(page, lines);
      LinesRows(page + Row(lines[0]), lines[1..]);
      AppendTwice(page, Row(lines[0]), Rows(lines[1..]));
    }
  }

  /** Line i is in row i. */
  lemma {:induction false} RowsAt(lines: seq<seq<Byte>>, i: nat, j: nat)
    requires FitRows(lines) && i < |lines| && j < 80
    ensures i * 80 + j < |Rows(lines)| && Rows(lines)[i * 80 + j] == if j < |lines[i]| then lines[i][j] else EMPTY
    decreases |lines|
  {
    if i > 0 {
      RowsAt(lines[1..], i - 1, j);
      assert i * 80 + j == 80 + ((i - 1) * 80 + j);
    }
  }

  lemma {:induction false} RowsLength(lines: seq<seq<Byte>>)
    requires FitRows(lines)
    ensures |Rows(lines)| == |lines| * 80
    decreases |lines|
  {
    if lines == [] {
    } else {
      RowsLength(lines[1..]);
    }
  }

  /** Cell by cell. */
  lemma LinesOnRows(page: seq<Byte>, lines: seq<seq<Byte>>, i: nat, j: nat)
    requires |page| % 80 == 0 && FitRows(lines) && i < |lines| && j < 80
    ensures |Layout(page, Lines(lines))| == |page| + |lines| * 80
    ensures Layout(page, Lines(lines))[|page| + i * 80 + j] == if j < |lines[i]| then lines[i][j] else EMPTY
  {
    LinesRows(page, lines);
    RowsLength(lines);
    RowsAt(lines, i, j);
    assert (page + Rows(lines))[|page| + i * 80 + j] == Rows(lines)[i * 80 + j];
  }

  // ----- The window -----

  /** The first row in the window, once the cursor is in the last one. */
  function TopRow(length: nat): nat { if length / 80 < 24 then 0 else length / 80 - 24 }

  function CellAt(page: seq<Byte>, i: int): Byte { if 0 <= i < |page| then page[i] else EMPTY }

  function Char(buffer: seq<Byte>, k: int): Byte
    requires |buffer| == 4000 && 0 <= k < 2000
  {
    buffer[2 * k]
  }

  function Attribute(buffer: seq<Byte>, k: int): Byte
    requires |buffer| == 4000 && 0 <= k < 2000
  {
    buffer[2 * k + 1]
  }

  /** The two stores that every write to the screen consists of: character and attribute of cell k. */
  function WithCell(buffer: seq<Byte>, k: int, c: Byte, attribute: Byte): (r: seq<Byte>)
    requires |buffer| == 4000 && 0 <= k < 2000
    ensures |r| == 4000
    ensures forall j {:trigger Char(r, j)} :: 0 <= j < 2000 ==> Char(r, j) == if j == k then c else Char(buffer, j)
    ensures forall j {:trigger Attribute(r, j)} :: 0 <= j < 2000 ==>
      Attribute(r, j) == if j == k then attribute else Attribute(buffer, j)
  {
    buffer[2 * k := c][2 * k + 1 := attribute]
  }

  /** The buffer shows 25 rows of the page from row `top` on, in grey; cells behind the cursor are
      empty. */
  ghost predicate Shows(buffer: seq<Byte>, page: seq<Byte>, top: nat) {
    && |buffer| == 4000
    && (forall k {:trigger Char(buffer, k)} :: 0 <= k < 2000 ==> Char(buffer, k) == CellAt(page, top * 80 + k))
    && (forall k {:trigger Attribute(buffer, k)} :: 0 <= k < 2000 ==> Attribute(buffer, k) == GREY)
  }

  /** The first `n` cells of the buffer hold the cells one row further on in b; the rest hold b's. */
  ghost predicate MovedUp(buffer: seq<Byte>, b: seq<Byte>, n: int) {
    && |buffer| == 4000 == |b| && 0 <= n <= 1920
    && (forall k {:trigger Char(buffer, k)} :: 0 <= k < 2000 ==>
          Char(buffer, k) == Char(b, if k < n then k + 80 else k))
    && (forall k {:trigger Attribute(buffer, k)} :: 0 <= k < 2000 ==>
          Attribute(buffer, k) == Attribute(b, if k < n then k + 80 else k))
  }

  lemma MoveStep(buffer: seq<Byte>, b: seq<Byte>, n: int)
    requires MovedUp(buffer, b, n) && n < 1920
    ensures MovedUp(WithCell(buffer, n, buffer[(n + 80) * 2], buffer[(n + 80) * 2 + 1]), b, n + 1)
  {
    assert Char(buffer, n + 80) == Char(b, n + 80) && Attribute(buffer, n + 80) == Attribute(b, n + 80);
  }

  /** The first n cells of the last row are empty, and all else is as in b. */
  ghost predicate Emptied(buffer: seq<Byte>, b: seq<Byte>, n: int) {
    && |buffer| == 4000 == |b|
    && (forall k {:trigger Char(buffer, k)} :: 0 <= k < 2000 ==>
          Char(buffer, k) == if 1920 <= k < 1920 + n then EMPTY else Char(b, k))
    && (forall k {:trigger Attribute(buffer, k)} :: 0 <= k < 2000 ==>
          Attribute(buffer, k) == if 1920 <= k < 1920 + n then GREY else Attribute(b, k))
  }

  /** Every row of b has moved up by one, and the last row is empty. */
  ghost predicate ScrolledUp(buffer: seq<Byte>, b: seq<Byte>) {
    && |buffer| == 4000 == |b|
    && (forall k {:trigger Char(buffer, k)} :: 0 <= k < 2000 ==>
          Char(buffer, k) == if k < 1920 then Char(b, k + 80) else EMPTY)
    && (forall k {:trigger Attribute(buffer, k)} :: 0 <= k < 2000 ==>
          Attribute(buffer, k) == if k < 1920 then Attribute(b, k + 80) else GREY)
  }

  /** Writing a character where the page ends. */
  lemma ShowsCharacter(buffer: seq<Byte>, page: seq<Byte>, top: nat, k: int, c: Byte)
    requires Shows(buffer, page, top) && 0 <= k < 2000 && top * 80 + k == |page|
    ensures Shows(WithCell(buffer, k, c, GREY), page + [c], top)
  {
  }

  /** Empty cells are on the screen already. */
  lemma ShowsNewline(buffer: seq<Byte>, page: seq<Byte>, top: nat, n: nat)
    requires Shows(buffer, page, top)
    ensures Shows(buffer, page + Repeat(EMPTY, n), top)
  {
  }

  /** When the page ends with the window, scrolling moves the window down by one row. */
  lemma ShowsScrolled(buffer: seq<Byte>, b: seq<Byte>, page: seq<Byte>, top: nat)
    requires Shows(b, page, top) && ScrolledUp(buffer, b) && |page| == (top + 25) * 80
    ensures Shows(buffer, page, top + 1)
  {
  }

  /** The first of n full rows that the screen shows: the last 24 of them, and one row to write in. */
  function FirstShown(n: nat): nat { if n < 24 then 0 else n - 24 }

  /** Row i of the screen, when the page has n full rows. */
  lemma ScreenRow(buffer: seq<Byte>, page: seq<Byte>, n: nat, i: nat, j: nat)
    requires |page| == n * 80 && i < 25 && j < 80 && Shows(buffer, page, TopRow(|page|))
    ensures Char(buffer, i * 80 + j) == CellAt(page, (FirstShown(n) + i) * 80 + j)
  {
    assert TopRow(|page|) == FirstShown(n);
  }

  lemma LineShown(buffer: seq<Byte>, page: seq<Byte>, lines: seq<seq<Byte>>, i: nat, j: nat)
    requires FitRows(lines) && i < 25 && FirstShown(|lines|) + i < |lines| && j < 80
    requires page == Rows(lines) && Shows(buffer, page, TopRow(|page|))
    ensures var line := lines[FirstShown(|lines|) + i];
      Char(buffer, i * 80 + j) == if j < |line| then line[j] else EMPTY
  {
    RowsLength(lines);
    RowsAt(lines, FirstShown(|lines|) + i, j);
    ScreenRow(buffer, page, |lines|, i, j);
  }

  lemma RestIsEmpty(buffer: seq<Byte>, page: seq<Byte>, n: nat, i: nat, j: nat)
    requires |page| == n * 80 && i < 25 && FirstShown(n) + i >= n && j < 80 && Shows(buffer, page, TopRow(|page|))
    ensures Char(buffer, i * 80 + j) == EMPTY
  {
    ScreenRow(buffer, page, n, i, j);
  }

  /** The screen shows the last 24 lines, or all if there are fewer, in order from the top, and nothing
      below them. */
  lemma LinesOnScreen(buffer: seq<Byte>, lines: seq<seq<Byte>>, i: nat, j: nat)
    requires FitRows(lines) && i < 25 && j < 80
    requires var page := Layout([], Lines(lines)); Shows(buffer, page, TopRow(|page|))
    ensures var k := if |lines| < 24 then i else |lines| - 24 + i;
      Char(buffer, i * 80 + j) == if k < |lines| && j < |lines[k]| then lines[k][j] else EMPTY
  {
    LinesRows([], lines);
    assert [] + Rows(lines) == Rows(lines);
    if FirstShown(|lines|) + i < |lines| {
      LineShown(buffer, Rows(lines), lines, i, j);
    } else {
      RowsLength(lines);
      RestIsEmpty(buffer, Rows(lines), |lines|, i, j);
    }
  }

  /** Where the cursor is: in row y of the window and column x, or just behind the row. */
  predicate CursorAt(page: seq<Byte>, top: nat, x: int, y: int) {
    (top + y) * 80 + x == |page| && 0 <= x <= 80 && 0 <= y <= 25 && (y == 25 ==> x == 0) && (y < 24 ==> top == 0)
  }

  /** The cursor in its place, inside the screen: the window is the last 25 rows. */
  lemma CursorSettled(page: seq<Byte>, top: nat, x: int, y: int)
    requires CursorAt(page, top, x, y) && x < 80 && y < 25
    ensures top == TopRow(|page|) && x == |page| % 80 && y == |page| / 80 - top
  {
  }

  /** Both, when the screen scrolls. */
  lemma WindowMoves(buffer: seq<Byte>, b: seq<Byte>, page: seq<Byte>, top: nat, x: int, y: int)
    requires Shows(b, page, top) && ScrolledUp(buffer, b) && CursorAt(page, top, x, y + 1) && y == 24
    ensures Shows(buffer, page, TopRow(|page|)) && x == |page| % 80 && y == |page| / 80 - TopRow(|page|)
  {
    ShowsScrolled(buffer, b, page, top);
    CursorSettled(page, top + 1, x, y);
  }

  // ----- Numbers -----

  function Digits(n: nat): seq<Byte> {
    if n < 10 then [ZERO + n] else Digits(n / 10) + [ZERO + n % 10]
  }

  predicate AreDigits(s: seq<Byte>) { forall i :: 0 <= i < |s| ==> ZERO <= s[i] < ZERO + 10 }

  /** The number that a row of digits stands for. */
  function Parse(s: seq<Byte>): int {
    if s == [] then 0 else Parse(s[..|s| - 1]) * 10 + (s[|s| - 1] - ZERO)
  }

  /** Printed digits parse back to the number, and there is no leading zero. */
  lemma {:induction false} DigitsParseBack(n: nat)
    ensures AreDigits(Digits(n)) && Parse(Digits(n)) == n
    ensures Digits(n) != [] && (Digits(n)[0] == ZERO ==> Digits(n) == [ZERO])
  {
    if n < 10 {
      assert [ZERO + n][..0] == [];
      assert Parse([]) == 0;
    } else {
      DigitsParseBack(n / 10);
      assert Digits(n)[..|Digits(n)| - 1] == Digits(n / 10);
    }
  }

  function PowerOfTen(k: nat): nat { if k == 0 then 1 else PowerOfTen(k - 1) * 10 }

  lemma {:induction false} PowerIsPositive(k: nat)
    ensures PowerOfTen(k) >= 1
  {
    if k > 0 { PowerIsPositive(k - 1); }
  }

  /** The signed product s * i of the digit loop overflows for the first digit of numbers from three
      thousand million on, and for no others. */
  lemma FirstProductFits(n: int)
    requires 0 <= n < 0x1_0000_0000
    ensures var product := n / 1_000_000_000 * 1_000_000_000; Signed(product) == product <==> n < 3_000_000_000
  {
  }

  /** Subtracted from an unsigned number, the wrapped product is as good as the product. */
  lemma WrappedProduct(n: int, x: int)
    requires 0 <= x <= n < 0x1_0000_0000
    ensures (n - Signed(x)) % 0x1_0000_0000 == n - x
  {
    assert Signed(x) == x || Signed(x) == x - 0x1_0000_0000;
  }

  /** The digit loop, with k + 1 digits to come: q stands for the digits so far, n for the rest. */
  predicate DigitsSoFar(number: int, q: int, n: int, i: int, k: int) {
    if k >= 0 then i == PowerOfTen(k) && number == q * (10 * i) + n && q >= 0 && 0 <= n < 10 * i
    else i == 0 && k == -1 && number == q && n == 0
  }

  function Printed(q: int): seq<Byte> { if q <= 0 then [] else Digits(q) }

  lemma SplitDigit(number: int, q: nat, n: nat, i: nat)
    requires i >= 1 && number == q * (10 * i) + n && n < 10 * i
    ensures var s := n / i;
      0 <= s < 10 && 0 <= s * i <= n && n - s * i < i && number == (10 * q + s) * i + (n - s * i)
  {
  }

  /** One turn of the loop: the next digit s is split off. */
  lemma NextDigit(number: int, q: int, n: int, i: int, k: int)
    requires i > 0 && DigitsSoFar(number, q, n, i, k)
    ensures var s := n / i;
      0 <= s < 10 && 0 <= s * i <= n && DigitsSoFar(number, 10 * q + s, n - s * i, i / 10, k - 1) &&
      Printed(10 * q + s) == if q == 0 && s == 0 then [] else Printed(q) + [ZERO + s]
  {
    SplitDigit(number, q, n, i);
    AppendDigit(q, n / i);
    if k > 0 {
      var i' := PowerOfTen(k - 1);
      assert i == i' * 10 && i / 10 == i';
      assert 10 * i' == i;
    }
  }

  lemma AppendDigit(q: nat, s: nat)
    requires s < 10
    ensures Printed(10 * q + s) == if q == 0 && s == 0 then [] else Printed(q) + [ZERO + s]
  {
  }

  class Screen {
    const buffer: array<Byte>
    /** kc_x and kc_y. */
    var x: Byte
    var y: Byte
    /** The layout of everything written since the screen was cleared. */
    ghost var page: seq<Byte>

    /** The buffer and the cursor are the window on the last 25 rows of the layout. */
    ghost predicate Valid()
      reads this, buffer
    {
      && buffer.Length == 4000 && Shows(buffer[..], page, TopRow(|page|))
      && x == |page| % 80 && y == |page| / 80 - TopRow(|page|)
    }

    /** setup_console. */
    constructor ()
      ensures Valid() && page == []
    {
      buffer := new Byte[4000];
      x, y, page := 0, 0, [];
      new;
      Clear();
    }

    /** Character and attribute of cell k, which lies at byte `at`. */
    method Store(at: int, c: Byte, attribute: Byte, ghost k: int)
      requires buffer.Length == 4000 && 0 <= k < 2000 && at == 2 * k
      modifies buffer
      ensures buffer[..] == WithCell(old(buffer[..]), k, c, attribute)
    {
      buffer[at] := c;
      buffer[at + 1] := attribute;
    }

    /** kc_clear. */
    method Clear()
      requires buffer.Length == 4000
      modifies this, buffer
      ensures Valid() && page == []
    {
      var i := 0;
      while i < 80 * 25
        invariant 0 <= i <= 2000
        invariant forall k {:trigger Char(buffer[..], k)} :: 0 <= k < i ==> Char(buffer[..], k) == EMPTY
        invariant forall k {:trigger Attribute(buffer[..], k)} :: 0 <= k < i ==> Attribute(buffer[..], k) == GREY
      {
        Store(i * 2, EMPTY, GREY, i);
        i := i + 1;
      }
      x, y := 0, 0;
      page := [];
    }

    /** The first loops of kc_scroll: every row but the first moves up by one. */
    method MoveRows()
      requires buffer.Length == 4000
      modifies buffer
      ensures MovedUp(buffer[..], old(buffer[..]), 1920)
    {
      ghost var b := buffer[..];
      var i := 1;
      while i < 25
        invariant 1 <= i <= 25 && MovedUp(buffer[..], b, (i - 1) * 80)
      {
        var k := 0;
        while k < 80
          invariant 0 <= k <= 80 && MovedUp(buffer[..], b, (i - 1) * 80 + k)
        {
          MoveCell((i * 80 + k) * 2, ((i - 1) * 80 + k) * 2, b, (i - 1) * 80 + k);
          k := k + 1;
        }
        i := i + 1;
      }
    }

    /** The body of those loops: cell n is overwritten with the one below it. */
    method MoveCell(from: int, to: int, ghost b: seq<Byte>, ghost n: int)
      requires buffer.Length == 4000 && MovedUp(buffer[..], b, n) && n < 1920 && from == (n + 80) * 2 && to == n * 2
      modifies buffer
      ensures MovedUp(buffer[..], b, n + 1)
    {
      MoveStep(buffer[..], b, n);
      Store(to, buffer[from], buffer[from + 1], n);
    }

    /** kc_scroll: rows move up, and the last one is emptied. */
    method Scroll()
      requires buffer.Length == 4000
      modifies buffer
      ensures ScrolledUp(buffer[..], old(buffer[..]))
    {
      MoveRows();
      ghost var b := buffer[..];
      var k := 0;
      while k < 80
        invariant 0 <= k <= 80 && Emptied(buffer[..], b, k)
      {
        Store(25 * 80 * 2 - 2 * 80 + k * 2, EMPTY, GREY, 1920 + k);
        k := k + 1;
      }
    }

    /** The page is on the screen from row `top` on, and the cursor is at its end: inside the screen
        or, before kc_write_character has wrapped and scrolled, just behind it. */
    ghost predicate Pending(top: nat)
      reads this, buffer
    {
      buffer.Length == 4000 && Shows(buffer[..], page, top) && CursorAt(page, top, x, y)
    }

    /** kc_write_character. */
    method WriteCharacter(c: Byte)
      requires Valid()
      modifies this`x, this`y, this`page, buffer
      ensures Valid() && page == Extend(old(page), c)
      decreases if c == TAB then 2 else 0
    {
      ghost var top := TopRow(|page|);
      if c == NEWLINE {
        ShowsNewline(buffer[..], page, top, ToRowEnd(|page|));
        x := 0;
        y := y + 1;
        page := Extend(page, c);
      } else if c == TAB {
        WriteTab();
        top := TopRow(|page|);
      } else {
        Put(c);
      }
      Wrap(top);
    }

    /** A tab: spaces, written one by one, up to the next tab stop. */
    method WriteTab()
      requires Valid()
      modifies this`x, this`y, this`page, buffer
      ensures Valid() && page == Extend(old(page), TAB)
      decreases 1
    {
      ghost var before := page;
      ghost var n := 0;
      TabStep(|page|);
      while x % 8 != 0
        invariant Valid() && n + ToTabStop(|page|) == ToTabStop(|before|)
        invariant page == before + Repeat(SPACE, n)
        invariant x % 8 != 0 <==> ToTabStop(|page|) != 0
        decreases ToTabStop(|page|)
      {
        TabStep(|page|);
        assert before + Repeat(SPACE, n) + [SPACE] == before + Repeat(SPACE, n + 1);
        WriteCharacter(SPACE);
        n := n + 1;
        TabStep(|page|);
      }
    }

    /** Any other character. */
    method Put(c: Byte)
      requires Valid() && c != NEWLINE && c != TAB
      modifies this`x, this`page, buffer
      ensures Pending(TopRow(|old(page)|)) && page == Extend(old(page), c)
    {
      ShowsCharacter(buffer[..], page, TopRow(|page|), x + y * 80, c);
      Store((x + y * 80) * 2, c, GREY, x + y * 80);
      x := x + 1;
      page := Extend(page, c);
    }

    /** The end of kc_write_character: wrap to the next row, and scroll if there is none. */
    method Wrap(ghost top: nat)
      requires Pending(top)
      modifies this`x, this`y, buffer
      ensures Valid()
    {
      if x >= 80 {
        x := 0;
        y := y + 1;
      }
      if y > 25 - 1 {
        y := y - 1;
        ScrollUp(top);
      } else {
        CursorSettled(page, top, x, y);
      }
    }

    /** Its scrolling, with the cursor on its way up. */
    method ScrollUp(ghost top: nat)
      requires buffer.Length == 4000 && Shows(buffer[..], page, top) && CursorAt(page, top, x, y + 1) && y == 24
      modifies buffer
      ensures Valid()
    {
      ghost var b := buffer[..];
      Scroll();
      WindowMoves(buffer[..], b, page, top, x, y);
    }

    /** kc_print_string, of the characters before the terminating zero. */
    method PrintString(text: seq<Byte>)
      requires Valid()
      modifies this`x, this`y, this`page, buffer
      ensures Valid() && page == Layout(old(page), text)
    {
      var i := 0;
      while i < |text|
        invariant 0 <= i <= |text| && Valid()
        invariant Layout(page, text[i..]) == Layout(old(page), text)
      {
        WriteCharacter(text[i]);
        assert text[i..][1..] == text[i + 1..];
        i := i + 1;
      }
    }

    /** Splits the next digit off, with the signed product s * i in two's complement, and writes it
        unless it is a leading zero. */
    method WriteDigit(nr: int, i: int, j: int) returns (rest: int, begun: int)
      requires Valid() && 0 <= nr < 0x1_0000_0000 && i > 0 && nr / i < 10
      modifies this`x, this`y, this`page, buffer
      ensures Valid() && rest == nr - nr / i * i
      ensures begun != 0 <==> j != 0 || nr / i != 0
      ensures page == old(page) + if begun != 0 then [ZERO + nr / i] else []
    {
      var s := nr / i;
      WrappedProduct(nr, s * i);
      rest := (nr - Signed(s * i)) % 0x1_0000_0000;
      begun := j;
      if begun == 0 && s != 0 {
        begun := 1;
      }
      if begun != 0 {
        WriteCharacter(ZERO + s);
      }
    }

    /** The body of the digit loop: q stands for the digits so far, and k + 1 are to come. */
    method PrintDigit(ghost number: int, ghost before: seq<Byte>, ghost q: int, ghost k: int, nr: int, i: int, j: int)
      returns (rest: int, begun: int)
      requires Valid() && 0 <= nr < 0x1_0000_0000 && i > 0 && DigitsSoFar(number, q, nr, i, k)
      requires (j != 0 <==> q != 0) && page == before + Printed(q)
      modifies this`x, this`y, this`page, buffer
      ensures Valid() && 0 <= rest <= nr && DigitsSoFar(number, 10 * q + nr / i, rest, i / 10, k - 1)
      ensures (begun != 0 <==> 10 * q + nr / i != 0) && page == before + Printed(10 * q + nr / i)
    {
      NextDigit(number, q, nr, i, k);
      rest, begun := WriteDigit(nr, i, j);
      AppendTwice(before, Printed(q), if begun != 0 then [ZERO + nr / i] else []);
    }

    /** kc_print_integer */
    method PrintInteger(number: int)
      requires Valid() && 0 <= number < 0x1_0000_0000
      modifies this`x, this`y, this`page, buffer
      ensures Valid() && page == old(page) + Digits(number)
    {
      var nr, i, j := number, 1_000_000_000, 0;
      if nr == 0 {
        WriteCharacter(ZERO);
        return;
      }
      ghost var q, k := 0, 9;
      while i > 0
        invariant Valid() && DigitsSoFar(number, q, nr, i, k) && (j != 0 <==> q != 0)
        invariant page == old(page) + Printed(q)
        invariant 0 <= nr <= number
        decreases i
      {
        ghost var s := nr / i;
        nr, j := PrintDigit(number, old(page), q, k, nr, i, j);
        q := 10 * q + s;
        i := i / 10;
        k := k - 1;
      }
    }
  }
}
