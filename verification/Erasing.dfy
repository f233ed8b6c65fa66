// Backspacing over what was just typed: replace_input of drivers/keyboard.c on
// the terminal of drivers/vga.c.
module Erasing {
  import opened Terminal

  function Position(t: Term): nat { WIDTH * t.y + t.x }

  // What stands at a position; below the last row, what a new row would show.
  function ContentAt(t: Term, p: nat): Cell {
    if p / WIDTH < |t.rows| then t.rows[p / WIDTH][p % WIDTH] else Blank(t.color)
  }

  // u holds what t holds, except that positions from lo up to hi are blank.
  ghost predicate Blanked(t: Term, u: Term, lo: nat, hi: nat) {
    forall p: nat :: ContentAt(u, p) == if lo <= p < hi then Blank(t.color) else ContentAt(t, p)
  }

  function TypeAll(t: Term, text: seq<Char>): (u: Term)
    requires Valid(t)
    ensures Valid(u)
    decreases |text|
  {
    if text == [] then t else TypeKeepsValid(t, text[0]); TypeAll(Type(t, text[0]), text[1..])
  }

  function EraseAll(t: Term, n: nat): (u: Term)
    requires Valid(t)
    ensures Valid(u)
    decreases n, t
  {
    if n == 0 then t else EraseKeepsValid(t); EraseAll(Erase(t), n - 1)
  }

  lemma TypeKeepsValid(t: Term, c: Char)
    requires Valid(t)
    ensures Valid(Type(t, c))
  {
    hide MakeEntry;
  }

  lemma EraseKeepsValid(t: Term)
    requires Valid(t)
    ensures Valid(Erase(t)) && |Erase(t).rows| == |t.rows| && Erase(t).color == t.color
    ensures Position(Erase(t)) + 1 >= Position(t)
  {
    hide Blank, SetCell;
    var y := if t.x > 0 || t.y <= Top(t) then t.y else t.y - 1;
    SetCellSize(t.rows, y, Erase(t).x, Blank(t.color));
  }

  // What the key buffer can hold: a newline ends the input, and no key gives a
  // carriage return.
  predicate Keys(text: seq<Char>) {
    forall i :: 0 <= i < |text| ==> text[i] != NEWLINE && text[i] != RETURN
  }

  // Every tab of the text, typed from column x on, moves the cursor by one only.
  predicate TabsFit(x: nat, text: seq<Char>)
    decreases |text|
  {
    text == [] || ((text[0] == TAB ==> x % 4 == 3) && TabsFit((x + 1) % WIDTH, text[1..]))
  }

  // A key moves the cursor on by at least one, and by exactly one unless it is a
  // tab that is not the last before its stop; only its own cell can change,
  // wherever lines wrap and the screen scrolls.
  lemma TypeKey(t: Term, c: Char)
    requires Valid(t) && c != NEWLINE && c != RETURN
    ensures var u := Type(t, c);
      && Valid(u) && u.color == t.color && Position(u) >= Position(t) + 1
      && (Position(u) == Position(t) + 1 <==> (c == TAB ==> t.x % 4 == 3))
      && (Position(u) == Position(t) + 1 ==> u.x == (t.x + 1) % WIDTH)
      && |u.rows| == (if u.y < |t.rows| then |t.rows| else u.y + 1)
      && (forall p: nat :: p != Position(t) ==> ContentAt(u, p) == ContentAt(t, p))
  {
    TypedCursor(t, c);
    hide Type, Valid;
    forall p: nat | p != Position(t) ensures ContentAt(Type(t, c), p) == ContentAt(t, p) {
      TypedContent(t, c, p);
    }
  }

  lemma TypedCursor(t: Term, c: Char)
    requires Valid(t) && c != NEWLINE && c != RETURN
    ensures var u := Type(t, c);
      && Valid(u) && u.color == t.color && Position(u) >= Position(t) + 1
      && (Position(u) == Position(t) + 1 <==> (c == TAB ==> t.x % 4 == 3))
      && (Position(u) == Position(t) + 1 ==> u.x == (t.x + 1) % WIDTH)
      && |u.rows| == (if u.y < |t.rows| then |t.rows| else u.y + 1)
  {
    hide MakeEntry, Blank, SetCell;
    SetCellSize(t.rows, t.y, t.x, MakeEntry(c, t.color));
    assert c == TAB ==> (t.x + 4) / 4 * 4 == t.x + 4 - t.x % 4;
  }

  lemma TypedContent(t: Term, c: Char, p: nat)
    requires Valid(t) && c != NEWLINE && c != RETURN && p != Position(t)
    ensures ContentAt(Type(t, c), p) == ContentAt(t, p)
  {
    hide MakeEntry, Blank;
    SplitPosition(p, t.y, t.x);
  }

  lemma SplitPosition(p: nat, y: nat, x: nat)
    requires x < WIDTH
    ensures p == WIDTH * y + x <==> p / WIDTH == y && p % WIDTH == x
  {
  }

  // A backspace blanks the cell before the cursor and moves onto it, unless the
  // cursor is in the top left corner of what is shown.
  lemma EraseOne(t: Term)
    requires Valid(t) && Position(t) > WIDTH * Top(t)
    ensures var u := Erase(t);
      && Valid(u) && u.color == t.color && |u.rows| == |t.rows| && Position(u) == Position(t) - 1
      && Blanked(t, u, Position(u), Position(u) + 1)
  {
    hide Blank;
    var u := Erase(t);
    ErasedRows(t);
    hide Erase;
    forall p: nat ensures ContentAt(u, p) == if p == Position(u) then Blank(t.color) else ContentAt(t, p) {
      SplitPosition(p, u.y, u.x);
    }
  }

  lemma ErasedRows(t: Term)
    requires Valid(t) && Position(t) > WIDTH * Top(t)
    ensures var u := Erase(t);
      && Valid(u) && u.color == t.color && Position(u) == Position(t) - 1
      && u.rows == SetCell(t.rows, u.y, u.x, Blank(t.color))
  {
    hide Blank, SetCell;
    SetCellSize(t.rows, if t.x > 0 then t.y else t.y - 1, if t.x > 0 then t.x - 1 else WIDTH - 1, Blank(t.color));
  }

  lemma {:induction false} TypeKeys(t: Term, text: seq<Char>)
    requires Valid(t) && Keys(text)
    ensures var u := TypeAll(t, text);
      && Valid(u) && u.color == t.color && Position(u) >= Position(t) + |text|
      && (Position(u) == Position(t) + |text| <==> TabsFit(t.x, text))
      && |u.rows| == (if u.y < |t.rows| then |t.rows| else u.y + 1)
      && (forall p: nat :: p < Position(t) || p >= Position(u) ==> ContentAt(u, p) == ContentAt(t, p))
    decreases |text|
  {
    hide Type, ContentAt;
    if text != [] {
      TypeKey(t, text[0]);
      TypeKeys(Type(t, text[0]), text[1..]);
    }
  }

  lemma {:induction false} EraseMany(t: Term, n: nat)
    requires Valid(t) && Position(t) >= WIDTH * Top(t) + n
    ensures var u := EraseAll(t, n);
      && Valid(u) && u.color == t.color && Position(u) == Position(t) - n
      && Blanked(t, u, Position(u), Position(t))
    decreases n
  {
    hide Erase, ContentAt, Blank;
    if n > 0 {
      EraseOne(t);
      EraseMany(Erase(t), n - 1);
    }
  }

  // However often it is erased, the cursor stays on the rows that are shown, and
  // goes back by one at a time.
  lemma {:induction false} EraseStaysOnScreen(t: Term, n: nat)
    requires Valid(t)
    ensures var u := EraseAll(t, n);
      Valid(u) && |u.rows| == |t.rows| && u.color == t.color && Position(u) + n >= Position(t)
    decreases n
  {
    hide Erase;
    if n > 0 {
      EraseKeepsValid(t);
      EraseStaysOnScreen(Erase(t), n - 1);
    }
  }

  // Erasing n characters just typed returns the cursor to its logical place
  // exactly when every tab among them moved it by one only and the row it started
  // in is still shown; then the characters are blank and nothing else has changed,
  // across wraps and scrolls.
  lemma EraseUndoesTyping(t: Term, text: seq<Char>)
    requires Valid(t) && Keys(text)
    ensures var u := EraseAll(TypeAll(t, text), |text|);
      Position(u) == Position(t) <==> TabsFit(t.x, text) && t.x + |text| < WIDTH * HEIGHT
    ensures var u := EraseAll(TypeAll(t, text), |text|);
      TabsFit(t.x, text) && t.x + |text| < WIDTH * HEIGHT ==>
        && u.x == t.x && u.y == t.y && u.color == t.color
        && Blanked(t, u, Position(t), Position(t) + |text|)
  {
    var v := TypeAll(t, text);
    TypeKeys(t, text);
    hide TypeAll, ContentAt, Blank, TabsFit;
    if !TabsFit(t.x, text) {
      EraseStaysOnScreen(v, |text|);
    } else if t.x + |text| < WIDTH * HEIGHT {
      assert Top(v) <= t.y;
      EraseMany(v, |text|);
      SamePlace(EraseAll(v, |text|), t);
    } else {
      assert Top(v) > t.y;
      EraseStaysOnScreen(v, |text|);
    }
  }

  lemma SamePlace(u: Term, t: Term)
    requires Valid(u) && Valid(t) && Position(u) == Position(t)
    ensures u.x == t.x && u.y == t.y
  {
  }

  // The 255 characters the key buffer can hold are always within reach, so only
  // tabs can leave the cursor elsewhere.
  lemma KeyBufferIsErasable(t: Term, text: seq<Char>)
    requires Valid(t) && Keys(text) && |text| <= 255
    ensures var u := EraseAll(TypeAll(t, text), |text|); u.x == t.x && u.y == t.y <==> TabsFit(t.x, text)
  {
    EraseUndoesTyping(t, text);
    if Position(EraseAll(TypeAll(t, text), |text|)) == Position(t) {
      SamePlace(EraseAll(TypeAll(t, text), |text|), t);
    }
  }

  // One tab at the left edge: erased once, the cursor is left in column 3.
  lemma TabIsLeftBehind(color: bv8)
    ensures var u := EraseAll(TypeAll(Empty(color), [TAB]), 1); u.x == 3 && u.y == 0
    ensures !TabsFit(0, [TAB])
  {
    hide Blank, SetCell;
    var t := Empty(color);
    assert [TAB][1..] == [];
    TypeKeepsValid(t, TAB);
    var v := Type(t, TAB);
    assert v.x == 4 && v.y == 0;
    assert TypeAll(t, [TAB]) == v;
    EraseKeepsValid(v);
    assert EraseAll(v, 1) == Erase(v);
  }

  // What is printed and backspaced over on the screen is typed and erased on the
  // terminal it shows.
  lemma {:induction false} PrintedShows(s: Screen, t: Term, text: seq<Char>)
    requires Shows(s, t)
    ensures Shows(Printed(s, text), TypeAll(t, text))
    decreases |text|
  {
    hide Shows, PutChar, Type;
    if text != [] {
      PutCharShows(s, t, text[0]);
      PrintedShows(PutChar(s, text[0]), Type(t, text[0]), text[1..]);
    }
  }

  lemma {:induction false} BackspacedShows(s: Screen, t: Term, n: nat)
    requires Shows(s, t)
    ensures Shows(Backspaced(s, n), EraseAll(t, n))
    decreases n
  {
    hide Shows, Backspace, Erase;
    if n > 0 {
      BackspaceShows(s, t);
      BackspacedShows(Backspace(s), Erase(t), n - 1);
    }
  }

  // replace_input: once the shown input has been erased, the new text is printed
  // on a terminal that is otherwise as before the input; it begins where the old
  // one began exactly when every tab of the old one moved the cursor by one.
  lemma InputIsReplaced(s: Screen, t: Term, text: seq<Char>, newText: seq<Char>)
    requires Shows(s, t) && Keys(text) && |text| <= 255
    ensures var u := EraseAll(TypeAll(t, text), |text|);
      && Shows(Printed(Backspaced(Printed(s, text), |text|), newText), TypeAll(u, newText))
      && (u.x == t.x && u.y == t.y <==> TabsFit(t.x, text))
      && (TabsFit(t.x, text) ==> u.color == t.color && Blanked(t, u, Position(t), Position(t) + |text|))
  {
    PrintedShows(s, t, text);
    BackspacedShows(Printed(s, text), TypeAll(t, text), |text|);
    EraseUndoesTyping(t, text);
    KeyBufferIsErasable(t, text);
    PrintedShows(Backspaced(Printed(s, text), |text|), EraseAll(TypeAll(t, text), |text|), newText);
  }

  // A single tab is undone by its one backspace only
  // from the last column before a tab stop.
  lemma TabIsErasedOnlyBeforeStop(t: Term)
    requires Valid(t)
    ensures var u := Erase(Type(t, TAB)); u.x == t.x && u.y == t.y <==> t.x % 4 == 3
  {
    hide Blank, SetCell, BlankRow;
    var v := Type(t, TAB);
    assert v.x > 0 ==> v.x == (t.x + 4) / 4 * 4 && v.y == t.y;
    assert v.x == 0 ==> t.x >= WIDTH - 4 && v.y == t.y + 1 && v.y > Top(v);
    hide Type;
  }
}
