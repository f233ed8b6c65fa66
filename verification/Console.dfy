// drivers/vga.c over video memory, and replace_input of drivers/keyboard.c.
module Console {
  import opened Terminal

  class Vga {
    const video: array<Cell>
    var cursorX: nat
    var cursorY: nat
    var currentColor: bv8

    ghost predicate Valid()
      reads this
    {
      video.Length == WIDTH * HEIGHT && cursorX < WIDTH && cursorY < HEIGHT
    }

    ghost function Value(): Screen
      reads this, video
    {
      Screen(video[..], cursorX, cursorY, currentColor)
    }

    constructor ()
      ensures Valid() && fresh(video)
    {
      video := new Cell[WIDTH * HEIGHT](_ => 0);
      cursorX, cursorY, currentColor := 0, 0, 0;
    }

    method VgaClear()
      requires Valid()
      modifies this`cursorX, this`cursorY, video
      ensures Valid() && Value() == Clear(currentColor)
    {
      for i := 0 to WIDTH * HEIGHT
        invariant forall j :: 0 <= j < i ==> video[j] == Blank(currentColor)
      {
        video[i] := Blank(currentColor);
      }
      cursorX, cursorY := 0, 0;
    }

    method VgaSetColor(fg: bv8, bg: bv8)
      requires Valid()
      modifies this`currentColor
      ensures Valid() && Value() == ScreenStep(old(Value()), SetColor(fg, bg))
    {
      currentColor := MakeColor(fg, bg);
    }

    method ScrollUp()
      requires video.Length == WIDTH * HEIGHT && cursorX < WIDTH && cursorY <= HEIGHT
      modifies this`cursorY, video
      ensures Valid() && Value() == Scroll(old(Value()))
    {
      hide Blank;
      if cursorY >= HEIGHT {
        for i := 0 to (HEIGHT - 1) * WIDTH
          invariant forall j :: 0 <= j < WIDTH * HEIGHT ==> video[j] == old(video[if j < i then j + WIDTH else j])
        {
          video[i] := video[i + WIDTH];
        }
        for i := (HEIGHT - 1) * WIDTH to HEIGHT * WIDTH
          invariant forall j :: 0 <= j < (HEIGHT - 1) * WIDTH ==> video[j] == old(video[j + WIDTH])
          invariant forall j :: (HEIGHT - 1) * WIDTH <= j < i ==> video[j] == Blank(currentColor)
        {
          video[i] := Blank(currentColor);
        }
        cursorY := HEIGHT - 1;
      }
    }

    method VgaPutChar(c: Char)
      requires Valid()
      modifies this`cursorX, this`cursorY, video
      ensures Valid() && Value() == PutChar(old(Value()), c)
    {
      hide MakeEntry, Scroll;
      if c == NEWLINE {
        cursorX := 0;
        cursorY := cursorY + 1;
      } else if c == RETURN {
        cursorX := 0;
      } else if c == TAB {
        cursorX := (cursorX + 4) / 4 * 4;
      } else {
        video[cursorY * WIDTH + cursorX] := MakeEntry(c, currentColor);
        cursorX := cursorX + 1;
      }
      if cursorX >= WIDTH {
        cursorX := 0;
        cursorY := cursorY + 1;
      }
      assert Value() == Advance(old(Value()), c);
      ScrollUp();
    }

    method VgaBackspace()
      requires Valid()
      modifies this`cursorX, this`cursorY, video
      ensures Valid() && Value() == Backspace(old(Value()))
    {
      hide Blank;
      if cursorX > 0 {
        cursorX := cursorX - 1;
      } else if cursorY > 0 {
        cursorY := cursorY - 1;
        cursorX := WIDTH - 1;
      }
      video[cursorY * WIDTH + cursorX] := Blank(currentColor);
    }

    method VgaPrint(str: seq<Char>)
      requires Valid()
      modifies this`cursorX, this`cursorY, video
      ensures Valid() && Value() == Printed(old(Value()), str)
    {
      hide PutChar;
      assert str[0..] == str;
      for i := 0 to |str|
        invariant Valid() && Printed(Value(), str[i..]) == Printed(old(Value()), str)
      {
        assert str[i..][1..] == str[i + 1..];
        VgaPutChar(str[i]);
      }
    }
  }

  const KEY_BUFFER_SIZE := 256

  class Keyboard {
    const vga: Vga
    const keyBuffer: array<Char>
    var keyBufferLen: nat

    ghost predicate Valid()
      reads this, vga
    {
      && keyBuffer.Length == KEY_BUFFER_SIZE && keyBufferLen < KEY_BUFFER_SIZE
      && vga.Valid() && keyBuffer as object != vga.video
    }

    constructor (vga: Vga)
      requires vga.Valid()
      ensures Valid() && this.vga == vga && keyBufferLen == 0 && fresh(keyBuffer)
    {
      this.vga, keyBufferLen := vga, 0;
      keyBuffer := new Char[KEY_BUFFER_SIZE](_ => 0);
    }

    // The part of the text that fits the buffer with its NUL.
    function Fitting(newText: seq<Char>): seq<Char> {
      if |newText| >= KEY_BUFFER_SIZE then newText[..KEY_BUFFER_SIZE - 1] else newText
    }

    // replace_input: the screen first loses one character per buffered key.
    method ReplaceInput(newText: seq<Char>)
      requires Valid()
      modifies this`keyBufferLen, keyBuffer, vga`cursorX, vga`cursorY, vga.video
      ensures Valid() && keyBuffer[keyBufferLen] == 0
      ensures keyBuffer[..keyBufferLen] == if |newText| > 255 then newText[..255] else newText
      ensures vga.Value() == Printed(Backspaced(old(vga.Value()), old(keyBufferLen)), keyBuffer[..keyBufferLen])
    {
      hide Backspace, Printed;
      while keyBufferLen > 0
        invariant Valid()
        invariant Backspaced(vga.Value(), keyBufferLen) == Backspaced(old(vga.Value()), old(keyBufferLen))
      {
        vga.VgaBackspace();
        keyBufferLen := keyBufferLen - 1;
      }
      keyBufferLen := |newText|;
      if keyBufferLen >= KEY_BUFFER_SIZE { keyBufferLen := KEY_BUFFER_SIZE - 1; }
      for i := 0 to keyBufferLen
        invariant vga.Valid() && vga.Value() == Backspaced(old(vga.Value()), old(keyBufferLen))
        invariant keyBufferLen == |Fitting(newText)| && keyBuffer[..i] == newText[..i]
      {
        keyBuffer[i] := newText[i];
      }
      keyBuffer[keyBufferLen] := 0;
      assert keyBuffer[..keyBufferLen] == Fitting(newText);
      vga.VgaPrint(keyBuffer[..keyBufferLen]);
    }
  }
}
