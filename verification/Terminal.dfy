// The text screen of drivers/vga.c as a value, and the unbounded terminal whose
// last 25 rows it shows.
module Terminal {

  const WIDTH := 80
  const HEIGHT := 25

  type Cell = bv16
  type Char = bv8

  const NEWLINE: Char := 10
  const RETURN: Char := 13
  const TAB: Char := 9
  const SPACE: Char := 32

  // fg | (bg << 4)
  function MakeColor(fg: bv8, bg: bv8): bv8 { fg | (bg << 4) }

  // (uint16_t)c | ((uint16_t)color << 8); a char is signed, so from 0x80 on its
  // sign fills the colour byte.
  function MakeEntry(c: Char, color: bv8): Cell {
    (if c < 0x80 then c as bv16 else 0xFF00 | c as bv16) | (color as bv16 << 8)
  }

  function Blank(color: bv8): Cell { MakeEntry(SPACE, color) }

  // A colour holds the foreground in its low and the background in its high half.
  lemma ColorExactly(fg: bv8, bg: bv8)
    requires fg < 16 && bg < 16
    ensures MakeColor(fg, bg) & 0x0F == fg && MakeColor(fg, bg) >> 4 == bg
  {
  }

  // A cell holds the character in its low byte and the colour in its high byte; a
  // character from 0x80 on shows all colour bits set.
  lemma EntryExactly(c: Char, color: bv8)
    ensures MakeEntry(c, color) & 0x00FF == c as bv16
    ensures MakeEntry(c, color) >> 8 == if c < 0x80 then color as bv16 else 0x00FF
  {
  }

  // -- the screen ----------------------------------------------------------------

  datatype Screen = Screen(cells: seq<Cell>, x: nat, y: nat, color: bv8)

  ghost predicate OnScreen(s: Screen) {
    |s.cells| == WIDTH * HEIGHT && s.x < WIDTH && s.y < HEIGHT
  }

  function Clear(color: bv8): Screen {
    Screen(seq(WIDTH * HEIGHT, _ => Blank(color)), 0, 0, color)
  }

  function Scroll(s: Screen): Screen
    requires |s.cells| == WIDTH * HEIGHT
  {
    if s.y < HEIGHT then s
    else s.(y := HEIGHT - 1,
            cells := seq(WIDTH * HEIGHT, i requires 0 <= i < WIDTH * HEIGHT =>
              if i < (HEIGHT - 1) * WIDTH then s.cells[i + WIDTH] else Blank(s.color)))
  }

  // The part of vga_putchar before scrolling.
  function Advance(s: Screen, c: Char): Screen
    requires OnScreen(s)
  {
    var t :=
      if c == NEWLINE then s.(x := 0, y := s.y + 1)
      else if c == RETURN then s.(x := 0)
      else if c == TAB then s.(x := (s.x + 4) / 4 * 4)
      else s.(cells := s.cells[WIDTH * s.y + s.x := MakeEntry(c, s.color)], x := s.x + 1);
    if t.x >= WIDTH then t.(x := 0, y := t.y + 1) else t
  }

  function PutChar(s: Screen, c: Char): Screen
    requires OnScreen(s)
  {
    Scroll(Advance(s, c))
  }

  function Backspace(s: Screen): Screen
    requires OnScreen(s)
  {
    var t := if s.x > 0 then s.(x := s.x - 1) else if s.y > 0 then s.(x := WIDTH - 1, y := s.y - 1) else s;
    t.(cells := t.cells[WIDTH * t.y + t.x := Blank(t.color)])
  }

  // vga_print, and n calls of vga_backspace.
  function Printed(s: Screen, text: seq<Char>): (r: Screen)
    requires OnScreen(s)
    ensures OnScreen(r)
    decreases |text|
  {
    if text == [] then s else PutCharOnScreen(s, text[0]); Printed(PutChar(s, text[0]), text[1..])
  }

  function Backspaced(s: Screen, n: nat): (r: Screen)
    requires OnScreen(s)
    ensures OnScreen(r)
    decreases n, s
  {
    if n == 0 then s else Backspaced(Backspace(s), n - 1)
  }

  lemma PutCharOnScreen(s: Screen, c: Char)
    requires OnScreen(s)
    ensures OnScreen(PutChar(s, c))
  {
    hide MakeEntry, Blank;
  }

  // -- the unbounded terminal ------------------------------------------------------

  type Row = r: seq<Cell> | |r| == WIDTH witness seq(WIDTH, _ => 0)

  datatype Term = Term(rows: seq<Row>, x: nat, y: nat, color: bv8)

  ghost predicate Valid(t: Term) {
    |t.rows| >= HEIGHT && t.x < WIDTH && Top(t) <= t.y < |t.rows|
  }

  function BlankRow(color: bv8): Row { seq(WIDTH, _ => Blank(color)) }

  function Empty(color: bv8): Term { Term(seq(HEIGHT, _ => BlankRow(color)), 0, 0, color) }

  // The row shown first.
  function Top(t: Term): int { |t.rows| - HEIGHT }

  function SetCell(rows: seq<Row>, y: nat, x: nat, e: Cell): seq<Row>
    requires y < |rows| && x < WIDTH
  {
    rows[y := rows[y][x := e]]
  }

  // Rows are only ever added at the bottom, blank, when the cursor leaves the last.
  function Grow(t: Term): Term {
    if t.y < |t.rows| then t else t.(rows := t.rows + [BlankRow(t.color)])
  }

  function Move(t: Term, c: Char): Term
    requires Valid(t)
  {
    var u :=
      if c == NEWLINE then t.(x := 0, y := t.y + 1)
      else if c == RETURN then t.(x := 0)
      else if c == TAB then t.(x := (t.x + 4) / 4 * 4)
      else t.(rows := SetCell(t.rows, t.y, t.x, MakeEntry(c, t.color)), x := t.x + 1);
    if u.x >= WIDTH then u.(x := 0, y := u.y + 1) else u
  }

  function Type(t: Term, c: Char): Term
    requires Valid(t)
  {
    Grow(Move(t, c))
  }

  // Backspace does not leave the rows that are shown.
  function Erase(t: Term): Term
    requires Valid(t)
  {
    var u := if t.x > 0 then t.(x := t.x - 1) else if t.y > Top(t) then t.(x := WIDTH - 1, y := t.y - 1) else t;
    u.(rows := SetCell(u.rows, u.y, u.x, Blank(u.color)))
  }

  // What the terminal does with each character: 10 starts the next line, 13 goes
  // back to column 0, 9 goes on to the next multiple of 4, and any other is written
  // at the cursor, which moves on by one; column 80 is column 0 of the next line.
  lemma TypeExactly(t: Term, c: Char)
    requires Valid(t)
    ensures var u := Type(t, c);
      var x := if c == 10 || c == 13 then 0 else if c == 9 then t.x + 4 - t.x % 4 else t.x + 1;
      && u.color == t.color
      && u.x == (if x == 80 then 0 else x) && u.y == (if c == 10 || x == 80 then t.y + 1 else t.y)
      && |u.rows| == (if u.y < |t.rows| then |t.rows| else |t.rows| + 1)
      && (forall r: nat, k: nat :: r < |t.rows| && k < 80 ==>
        u.rows[r][k] ==
          if r == t.y && k == t.x && c != 9 && c != 10 && c != 13 then MakeEntry(c, t.color) else t.rows[r][k])
      && (forall k: nat :: k < 80 && |u.rows| > |t.rows| ==> u.rows[|t.rows|][k] == MakeEntry(0x20, t.color))
  {
    hide MakeEntry;
    assert (t.x + 4) / 4 * 4 == t.x + 4 - t.x % 4;
  }

  // A backspace goes back by one, over the start of a line too, but not above the
  // first line that is shown, and blanks the cell it comes to.
  lemma EraseExactly(t: Term)
    requires Valid(t)
    ensures var u := Erase(t);
      && u.color == t.color && |u.rows| == |t.rows|
      && (if t.x > 0 then u.x == t.x - 1 && u.y == t.y
          else if t.y > |t.rows| - 25 then u.x == 79 && u.y == t.y - 1
          else u.x == 0 && u.y == t.y)
      && (forall r: nat, k: nat :: r < |t.rows| && k < 80 ==>
        u.rows[r][k] == if r == u.y && k == u.x then MakeEntry(0x20, t.color) else t.rows[r][k])
  {
    hide MakeEntry;
  }

  // A cleared terminal has 25 blank lines of 80 columns and the cursor at the top left.
  lemma EmptyExactly(color: bv8)
    ensures var t := Empty(color);
      && |t.rows| == 25 && t.x == 0 && t.y == 0 && t.color == color
      && forall r: nat, k: nat :: r < 25 && k < 80 ==> t.rows[r][k] == MakeEntry(0x20, color)
  {
    hide MakeEntry;
  }

  // The screen shows line r of the last 25 in cells 80 * r to 80 * r + 79.
  lemma ShowsExactly(s: Screen, t: Term, r: nat, k: nat)
    requires Shows(s, t) && r < 25 && k < 80
    ensures |s.cells| == 2000 && |t.rows| >= 25 && s.cells[80 * r + k] == t.rows[|t.rows| - 25 + r][k]
    ensures s.x == t.x && s.y == t.y - (|t.rows| - 25) && s.color == t.color
  {
    assert CellAt(s.cells, r, k) == t.rows[|t.rows| - 25 + r][k];
  }

  // A text is printed character by character, from the first on.
  lemma {:induction false} PrintedExactly(s: Screen, text: seq<Char>, c: Char)
    requires OnScreen(s)
    ensures Printed(s, []) == s && Printed(s, text + [c]) == PutChar(Printed(s, text), c)
    decreases |text|
  {
    hide PutChar;
    if text == [] {
      assert ([] + [c])[1..] == [] && ([] + [c])[0] == c && text + [c] == [c];
    } else {
      PutCharOnScreen(s, text[0]);
      assert (text + [c])[1..] == text[1..] + [c];
      PrintedExactly(PutChar(s, text[0]), text[1..], c);
    }
  }

  // -- the screen shows the last 25 rows ---------------------------------------------

  ghost predicate Shows(s: Screen, t: Term)
    ensures Shows(s, t) ==> OnScreen(s) && Valid(t)
  {
    && OnScreen(s) && Valid(t)
    && s.x == t.x && s.y == t.y - Top(t) && s.color == t.color
    && Same(s.cells, t.rows, Top(t))
  }

  ghost predicate Same(cells: seq<Cell>, rows: seq<Row>, top: nat)
    requires |cells| == WIDTH * HEIGHT && |rows| == top + HEIGHT
  {
    forall r, x :: 0 <= r < HEIGHT && 0 <= x < WIDTH ==> CellAt(cells, r, x) == rows[top + r][x]
  }

  function CellAt(cells: seq<Cell>, r: nat, x: nat): Cell
    requires |cells| == WIDTH * HEIGHT && r < HEIGHT && x < WIDTH
  {
    cells[WIDTH * r + x]
  }

  lemma SameAfterWrite(cells: seq<Cell>, rows: seq<Row>, top: nat, y: nat, x: nat, e: Cell)
    requires |cells| == WIDTH * HEIGHT && |rows| == top + HEIGHT && Same(cells, rows, top)
    requires y < HEIGHT && x < WIDTH
    ensures Same(cells[WIDTH * y + x := e], SetCell(rows, top + y, x, e), top)
  {
    var after, rows' := cells[WIDTH * y + x := e], SetCell(rows, top + y, x, e);
    forall r, k | 0 <= r < HEIGHT && 0 <= k < WIDTH ensures CellAt(after, r, k) == rows'[top + r][k] {
      assert CellAt(cells, r, k) == rows[top + r][k];
      assert WIDTH * r + k == WIDTH * y + x <==> r == y && k == x;
    }
  }

  lemma SameAfterScroll(s: Screen, rows: seq<Row>, top: nat)
    requires |s.cells| == WIDTH * HEIGHT && |rows| == top + HEIGHT && Same(s.cells, rows, top) && s.y >= HEIGHT
    ensures Same(Scroll(s).cells, rows + [BlankRow(s.color)], top + 1)
  {
    hide Blank;
    var after, rows' := Scroll(s).cells, rows + [BlankRow(s.color)];
    forall r, k | 0 <= r < HEIGHT && 0 <= k < WIDTH ensures CellAt(after, r, k) == rows'[top + 1 + r][k] {
      if r < HEIGHT - 1 {
        assert CellAt(s.cells, r + 1, k) == rows[top + r + 1][k];
      }
    }
  }

  lemma ClearShows(color: bv8)
    ensures Shows(Clear(color), Empty(color))
  {
    hide Blank;
  }

  lemma AdvanceShows(s: Screen, t: Term, c: Char)
    requires Shows(s, t)
    ensures var a, b := Advance(s, c), Move(t, c);
      && |a.cells| == WIDTH * HEIGHT && |b.rows| == |t.rows| && Same(a.cells, b.rows, Top(t))
      && a.x == b.x < WIDTH && a.y <= HEIGHT && b.y == a.y + Top(t) && a.color == b.color
  {
    hide MakeEntry, Same, SetCell;
    SetCellSize(t.rows, t.y, t.x, MakeEntry(c, t.color));
    SameAfterWrite(s.cells, t.rows, Top(t), s.y, s.x, MakeEntry(c, s.color));
  }

  lemma SetCellSize(rows: seq<Row>, y: nat, x: nat, e: Cell)
    requires y < |rows| && x < WIDTH
    ensures |SetCell(rows, y, x, e)| == |rows|
  {
  }

  lemma PutCharShows(s: Screen, t: Term, c: Char)
    requires Shows(s, t)
    ensures Shows(PutChar(s, c), Type(t, c))
  {
    hide Advance, Move, Same, BlankRow;
    AdvanceShows(s, t, c);
    var a, b := Advance(s, c), Move(t, c);
    if a.y >= HEIGHT {
      SameAfterScroll(a, b.rows, Top(t));
    }
  }

  lemma BackspaceShows(s: Screen, t: Term)
    requires Shows(s, t)
    ensures Shows(Backspace(s), Erase(t))
  {
    hide Blank, Same;
    var a := Backspace(s);
    SameAfterWrite(s.cells, t.rows, Top(t), a.y, a.x, Blank(s.color));
  }

  // -- whole runs ------------------------------------------------------------

  datatype Event = Put(c: Char) | Back | SetColor(fg: bv8, bg: bv8)

  function ScreenStep(s: Screen, e: Event): Screen
    requires OnScreen(s)
  {
    match e
    case Put(c) => PutChar(s, c)
    case Back => Backspace(s)
    case SetColor(fg, bg) => s.(color := MakeColor(fg, bg))
  }

  function TermStep(t: Term, e: Event): Term
    requires Valid(t)
  {
    match e
    case Put(c) => Type(t, c)
    case Back => Erase(t)
    case SetColor(fg, bg) => t.(color := MakeColor(fg, bg))
  }

  ghost predicate ScreenRun(s: Screen, events: seq<Event>, s': Screen)
    decreases |events|
  {
    if events == [] then s' == s
    else OnScreen(s) && ScreenRun(ScreenStep(s, events[0]), events[1..], s')
  }

  ghost predicate TermRun(t: Term, events: seq<Event>, t': Term)
    decreases |events|
  {
    if events == [] then t' == t
    else Valid(t) && TermRun(TermStep(t, events[0]), events[1..], t')
  }

  // After any output from a cleared screen, the screen is the last 25 rows of
  // what the terminal would hold, and the cursor is on it.
  lemma {:induction false} ScreenRefinesTerminal(s: Screen, t: Term, events: seq<Event>, s': Screen) returns (t': Term)
    requires Shows(s, t) && ScreenRun(s, events, s')
    ensures TermRun(t, events, t') && Shows(s', t')
    decreases |events|
  {
    if events == [] {
      t' := t;
    } else {
      hide Shows, PutChar, Backspace, Type, Erase, MakeColor;
      var u, v := ScreenStep(s, events[0]), TermStep(t, events[0]);
      match events[0] {
        case Put(c) => PutCharShows(s, t, c);
        case Back => BackspaceShows(s, t);
        case SetColor(fg, bg) => ColorShows(s, t, MakeColor(fg, bg));
      }
      t' := ScreenRefinesTerminal(u, v, events[1..], s');
    }
  }

  lemma ColorShows(s: Screen, t: Term, color: bv8)
    requires Shows(s, t)
    ensures Shows(s.(color := color), t.(color := color))
  {
  }

  lemma ScreenShowsLast25Rows(color: bv8, events: seq<Event>, s': Screen) returns (t': Term)
    requires ScreenRun(Clear(color), events, s')
    ensures TermRun(Empty(color), events, t') && Shows(s', t') && OnScreen(s')
  {
    ClearShows(color);
    t' := ScreenRefinesTerminal(Clear(color), Empty(color), events, s');
  }
}
