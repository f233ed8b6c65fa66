// libc/string.c: itoa, and the string functions used with it.
module Numerals {
  import opened Machine

  function Digit(d: nat): (c: char)
    requires d < 16
    ensures c != '\0' && c != '.' && c != '-'
    ensures d < 10 ==> '0' <= c <= '9' && c as int - '0' as int == d
    ensures (c == '0') <==> (d == 0)
  {
    if d < 10 then d as char + '0' else (d - 10) as char + 'A'
  }

  // The digits of n, most significant first; none for zero.
  function Digits(n: nat, base: nat): (s: string)
    requires 2 <= base <= 16
    decreases n
  {
    if n == 0 then "" else Quotient(n, base); Digits(n / base, base) + [Digit(n % base)]
  }

  lemma Quotient(n: nat, base: nat)
    requires base >= 2 && n > 0
    ensures 0 <= n / base < n && 0 <= n % base < base && n == base * (n / base) + n % base
  {
  }

  type Int32 = i: int | -0x8000_0000 <= i < 0x8000_0000

  // Negative numbers are signed in base 10 only; otherwise their unsigned reading
  // is printed.
  function Sign(value: Int32, base: nat): string {
    if value < 0 && base == 10 then "-" else ""
  }

  // (unsigned int)value
  function Unsigned(value: Int32): Word {
    if value < 0 then value as int + TWO_32 else value
  }

  function Magnitude(value: Int32, base: nat): (n: Word)
    ensures value == 0 <==> n == 0
  {
    if value < 0 && base == 10 then -(value as int) else Unsigned(value)
  }

  // The text itoa writes.
  function Text(value: Int32, base: nat): string
    requires 2 <= base <= 16
  {
    if value == 0 then "0" else Sign(value, base) + Digits(Magnitude(value, base), base)
  }

  // Reading a numeral: what each character stands for.
  function DigitValue(c: char): nat {
    if '0' <= c <= '9' then c as int - '0' as int
    else if 'A' <= c <= 'F' then 10 + (c as int - 'A' as int)
    else 0
  }

  function Numeral(s: string, base: nat): nat {
    if s == "" then 0 else base * Numeral(s[..|s| - 1], base) + DigitValue(s[|s| - 1])
  }

  lemma {:induction false} DigitsReadBack(n: nat, base: nat)
    requires 2 <= base <= 16
    ensures Numeral(Digits(n, base), base) == n
    ensures n > 0 ==> Digits(n, base) != "" && Digits(n, base)[0] != '0'
    ensures forall c :: c in Digits(n, base) ==> c != '\0'
  {
    if n > 0 {
      Quotient(n, base);
      DigitsReadBack(n / base, base);
      var s, d := Digits(n / base, base), Digit(n % base);
      assert (s + [d])[..|s + [d]| - 1] == s;
      DigitValueOf(n % base);
      if n / base == 0 { assert s == ""; }
    }
  }

  lemma DigitValueOf(d: nat)
    requires d < 16
    ensures DigitValue(Digit(d)) == d
  {
  }

  function Pow2(k: nat): nat { if k == 0 then 1 else 2 * Pow2(k - 1) }

  lemma {:induction false} DigitCount(n: nat, base: nat, k: nat)
    requires 2 <= base <= 16 && n < Pow2(k)
    ensures |Digits(n, base)| <= k
  {
    if n > 0 {
      Quotient(n, base);
      assert n / base <= n / 2 by { HalfBounds(n, base); }
      DigitCount(n / base, base, k - 1);
    }
  }

  lemma HalfBounds(n: nat, base: nat)
    requires base >= 2
    ensures n / base <= n / 2
  {
    if n > 0 {
      Quotient(n, base);
      var q := n / base;
      TwiceAtMost(base, q);
    }
  }

  lemma TwiceAtMost(base: nat, q: nat)
    requires base >= 2
    ensures 2 * q <= base * q
  {
    assert base * q == 2 * q + (base - 2) * q;
  }

  // The text of itoa reads back to the value, or to its unsigned reading when the
  // base is not 10; it has no leading zero and its digits fit the scratch array.
  lemma ItoaReadsBack(value: Int32, base: nat)
    requires 2 <= base <= 16
    ensures var s, sign := Text(value, base), |Sign(value, base)|;
      && sign <= |s| && s[..sign] == Sign(value, base)
      && Numeral(s[sign..], base) == Magnitude(value, base)
      && (value != 0 ==> sign < |s| && s[sign] != '0')
    ensures |Digits(Magnitude(value, base), base)| <= 32
  {
    var n := Magnitude(value, base);
    DigitsReadBack(n, base);
    Pow2Is32();
    DigitCount(n, base, 32);
    var s, sign := Text(value, base), |Sign(value, base)|;
    if value == 0 {
      assert s[0..] == "0" && "0"[..0] == "";
    } else {
      assert s[sign..] == Digits(n, base);
    }
  }

  // In full: a minus sign for negative numbers in base 10 and nothing in front
  // otherwise; then digits that read back to the absolute value in base 10 and to
  // the value modulo 2^32 in every other base.
  lemma ItoaExactly(value: Int32, base: nat)
    requires 2 <= base <= 16
    ensures var s := Text(value, base);
      && (value < 0 && base == 10 ==> s != "" && s[0] == '-' && Numeral(s[1..], base) == -(value as int))
      && (value < 0 && base != 10 ==> Numeral(s, base) == value as int + 0x1_0000_0000)
      && (value >= 0 ==> Numeral(s, base) == value)
  {
    ItoaReadsBack(value, base);
    hide Numeral, Digits;
    var s := Text(value, base);
    assert s[0..] == s;
  }

  lemma Pow2Is32()
    ensures Pow2(32) == TWO_32
  {
    assert Pow2(8) == 0x100;
    assert Pow2(16) == 0x1_0000;
    assert Pow2(24) == 0x100_0000;
  }

  // -- the code ------------------------------------------------------------------

  // buf holds the C string s from offset at on.
  ghost predicate Holds(buf: array<char>, at: nat, s: string)
    reads buf
  {
    at + |s| < buf.Length && buf[at..at + |s|] == s && buf[at + |s|] == '\0'
  }

  method Itoa(value: Int32, buf: array<char>, base: nat)
    requires 2 <= base <= 16 && buf.Length > |Text(value, base)|
    modifies buf
    ensures Holds(buf, 0, Text(value, base))
  {
    hide Digits, Numeral;
    var tmp := new char[32];
    if value == 0 {
      buf[0] := '0';
      buf[1] := '\0';
      return;
    }
    ItoaReadsBack(value, base);
    var negative := value < 0 && base == 10;
    var uval: Word := if negative then -(value as int) else Unsigned(value);
    var i := TakeDigits(uval, tmp, base);
    var j := 0;
    if negative {
      buf[j] := '-';
      j := j + 1;
    }
    assert buf[..j] == Sign(value, base);
    ReversedLength(tmp[..i]);
    CopyReversed(tmp, i, buf, j);
  }

  // The digit loop: least significant first. The scratch array is long enough.
  method TakeDigits(n: Word, tmp: array<char>, base: nat) returns (i: nat)
    requires 2 <= base <= 16 && tmp.Length == 32 && |Digits(n, base)| <= 32
    modifies tmp
    ensures i <= 32 && Digits(n, base) == Reversed(tmp[..i])
  {
    hide Digits;
    i := 0;
    var uval: nat := n;
    while uval > 0
      invariant i <= 32 && i + |Digits(uval, base)| <= 32
      invariant Digits(n, base) == Digits(uval, base) + Reversed(tmp[..i])
      decreases uval
    {
      Quotient(uval, base);
      var digit := Digit(uval % base);
      DigitsStep(uval, base, Reversed(tmp[..i]));
      ReversedAppend(tmp[..i], digit);
      tmp[i] := digit;
      assert tmp[..i + 1] == tmp[..i] + [digit];
      i := i + 1;
      uval := uval / base;
    }
    DigitsEnd(base);
  }

  lemma DigitsStep(n: nat, base: nat, s: string)
    requires 2 <= base <= 16 && n > 0
    ensures 0 <= n % base < base && 0 <= n / base
    ensures Digits(n, base) + s == Digits(n / base, base) + ([Digit(n % base)] + s)
    ensures |Digits(n, base)| == |Digits(n / base, base)| + 1
  {
    Quotient(n, base);
    var q, d := n / base, n % base;
    assert Digits(n, base) == Digits(q, base) + [Digit(d)];
  }

  lemma DigitsEnd(base: nat)
    requires 2 <= base <= 16
    ensures Digits(0, base) == ""
  {
  }

  // The copying loop of itoa.
  method CopyReversed(tmp: array<char>, n: nat, buf: array<char>, at: nat)
    requires tmp != buf && n <= tmp.Length && at + n < buf.Length
    modifies buf
    ensures Holds(buf, 0, old(buf[..at]) + Reversed(tmp[..n]))
  {
    ReversedLength(tmp[..n]);
    var i, j := n, at;
    while i > 0
      invariant 0 <= i <= n && j == at + n - i
      invariant buf[..j] + Reversed(tmp[..i]) == old(buf[..at]) + Reversed(tmp[..n])
    {
      assert tmp[..i] == tmp[..i - 1] + [tmp[i - 1]];
      ReversedAppend(tmp[..i - 1], tmp[i - 1]);
      i := i - 1;
      buf[j] := tmp[i];
      j := j + 1;
    }
    buf[j] := '\0';
  }

  function Reversed(s: string): string {
    if s == "" then "" else Reversed(s[1..]) + [s[0]]
  }

  lemma {:induction false} ReversedAppend(s: string, c: char)
    ensures Reversed(s + [c]) == [c] + Reversed(s)
  {
    if s == "" {
      assert s + [c] == [c];
    } else {
      ReversedAppend(s[1..], c);
      assert (s + [c])[1..] == s[1..] + [c];
    }
  }

  lemma {:induction false} ReversedLength(s: string)
    ensures |Reversed(s)| == |s|
  {
    if s != "" { ReversedLength(s[1..]); }
  }

  method Strlen(buf: array<char>, ghost s: string) returns (len: nat)
    requires Holds(buf, 0, s) && '\0' !in s
    ensures len == |s|
  {
    assert forall k :: 0 <= k < |s| ==> buf[k] == s[k] && s[k] in s;
    len := 0;
    while buf[len] != '\0'
      invariant len <= |s|
      decreases |s| - len
    {
      len := len + 1;
    }
  }

  // strcpy(dest + at, src)
  method Strcpy(dest: array<char>, at: nat, src: array<char>, ghost s: string)
    requires dest != src && Holds(src, 0, s) && '\0' !in s && at + |s| < dest.Length
    modifies dest
    ensures Holds(dest, at, s) && dest[..at] == old(dest[..at])
  {
    assert forall k :: 0 <= k < |s| ==> src[k] == s[k] && s[k] in s;
    var i := 0;
    while src[i] != '\0'
      invariant i <= |s| && dest[..at] == old(dest[..at]) && dest[at..at + i] == s[..i]
      decreases |s| - i
    {
      dest[at + i] := src[i];
      i := i + 1;
    }
    dest[at + i] := '\0';
  }
}
