// Dotted-quad addresses: net_format_ip of net/net.c against parse_ip of
// shell/shell.c.
module IpText {
  import opened Machine
  import opened Numerals
  import P = Packets

  // The text for four bytes in memory order.
  function Quad(a: Byte, b: Byte, c: Byte, d: Byte): string {
    Text(a, 10) + ("." + (Text(b, 10) + ("." + (Text(c, 10) + ("." + Text(d, 10))))))
  }

  // -- parse_ip ----------------------------------------------------------------

  type Octets = o: seq<Word> | |o| == 4 witness [0, 0, 0, 0]

  predicate IsDigit(c: char) { '0' <= c <= '9' }

  // The loop of parse_ip from text s on; octets accumulate in 32 bits.
  function ParseFrom(s: string, octets: Octets, idx: nat): Octets
    requires idx <= 4
    decreases |s|
  {
    if s == "" || s[0] == '\0' || idx == 4 then octets
    else if IsDigit(s[0]) then
      ParseFrom(s[1..], octets[idx := (octets[idx] * 10 + (s[0] as int - '0' as int)) % TWO_32], idx)
    else if s[0] == '.' then ParseFrom(s[1..], octets, idx + 1)
    else ParseFrom(s[1..], octets, idx)
  }

  // (o0 << 24) | (o1 << 16) | (o2 << 8) | o3. The shifted bytes do not overlap
  // when each fits 8 bits, and then the result is their sum.
  function Combine(o: Octets): Word {
    if o[0] < 256 && o[1] < 256 && o[2] < 256 && o[3] < 256 then
      o[0] * 0x100_0000 + o[1] * 0x1_0000 + o[2] * 0x100 + o[3]
    else
      ((o[0] as bv32 << 24) | (o[1] as bv32 << 16) | (o[2] as bv32 << 8) | o[3] as bv32) as Word
  }

  function ParseIp(s: string): Word { Combine(ParseFrom(s, [0, 0, 0, 0], 0)) }

  // -- round trip --------------------------------------------------------------

  // Reading the digits of n when what was read before them is m.
  lemma {:induction false} ParseDigits(n: nat, s: string, o: Octets, idx: nat)
    requires n < 256 && idx < 4 && o[idx] == 0
    ensures ParseFrom(Digits(n, 10) + s, o, idx) == ParseFrom(s, o[idx := n], idx)
  {
    if n == 0 {
      assert Digits(n, 10) + s == s && o[idx := 0] == o;
    } else {
      var d := Digit(n % 10);
      assert Digits(n, 10) + s == Digits(n / 10, 10) + ([d] + s);
      ParseDigits(n / 10, [d] + s, o, idx);
      assert ([d] + s)[1..] == s;
      assert o[idx := n / 10][idx := n] == o[idx := n];
    }
  }

  lemma ParseByte(n: Byte, s: string, o: Octets, idx: nat)
    requires idx < 4 && o[idx] == 0
    ensures ParseFrom(Text(n, 10) + s, o, idx) == ParseFrom(s, o[idx := n], idx)
  {
    if n == 0 {
      assert Text(n, 10) + s == "0" + s && ("0" + s)[1..] == s;
      assert o[idx := 0] == o;
    } else {
      assert Text(n, 10) == "" + Digits(n, 10) == Digits(n, 10);
      ParseDigits(n, s, o, idx);
    }
  }

  lemma ParseByteDot(n: Byte, s: string, o: Octets, idx: nat)
    requires idx < 4 && o[idx] == 0
    ensures ParseFrom(Text(n, 10) + ("." + s), o, idx) == ParseFrom(s, o[idx := n], idx + 1)
  {
    hide Text;
    ParseByte(n, "." + s, o, idx);
    assert ("." + s)[1..] == s;
  }

  lemma ParseQuad(a: Byte, b: Byte, c: Byte, d: Byte)
    ensures ParseFrom(Quad(a, b, c, d), [0, 0, 0, 0], 0) == [a, b, c, d]
  {
    hide Text;
    var s3 := Text(d, 10);
    var s2 := Text(c, 10) + ("." + s3);
    var s1 := Text(b, 10) + ("." + s2);
    ParseByteDot(a, s1, [0, 0, 0, 0], 0);
    assert [0, 0, 0, 0][0 := a] == [a, 0, 0, 0];
    ParseByteDot(b, s2, [a, 0, 0, 0], 1);
    assert [a, 0, 0, 0][1 := b] == [a, b, 0, 0];
    ParseByteDot(c, s3, [a, b, 0, 0], 2);
    assert [a, b, 0, 0][2 := c] == [a, b, c, 0];
    ParseByte(d, "", [a, b, c, 0], 3);
    assert [a, b, c, 0][3 := d] == [a, b, c, d];
    assert s3 + "" == s3;
  }

  lemma ByteTextSize(n: Byte)
    ensures 1 <= |Text(n, 10)| <= 3 && '\0' !in Text(n, 10)
  {
    DigitsReadBack(n, 10);
    if n > 0 {
      assert Text(n, 10) == Digits(n, 10);
      ThreeDigits(n);
    }
  }

  lemma ThreeDigits(n: Byte)
    ensures |Digits(n, 10)| <= 3
  {
    assert n / 10 / 10 < 10;
    OneDigit(n / 10 / 10);
    DigitsShrink(n / 10);
    DigitsShrink(n);
  }

  lemma DigitsShrink(n: nat)
    ensures |Digits(n, 10)| <= |Digits(n / 10, 10)| + 1
  {
  }

  lemma OneDigit(n: nat)
    requires n < 10
    ensures |Digits(n, 10)| <= 1
  {
    assert n > 0 ==> n / 10 == 0;
  }

  // The address printed from its network-order word parses back to itself, and
  // the text with its NUL fits 16 bytes.
  lemma FormatThenParse(ip: Word)
    ensures var m := P.Bytes4(P.Htonl(ip));
      ParseIp(Quad(m[0], m[1], m[2], m[3])) == ip && |Quad(m[0], m[1], m[2], m[3])| < 16
  {
    P.HtonlIsNetworkOrder(ip);
    var a, b, c, d := ip / 0x100_0000, ip / 0x1_0000 % 256, ip / 0x100 % 256, ip % 256;
    assert ip == a * 0x100_0000 + b * 0x1_0000 + c * 0x100 + d;
    ParseQuad(a, b, c, d);
    ByteTextSize(a);
    ByteTextSize(b);
    ByteTextSize(c);
    ByteTextSize(d);
    hide Text, Digits, ParseFrom;
  }

  // -- texts that are no printed address -------------------------------------------

  // The decimal number that the digits of a make, everything else in it left out.
  function NumberIn(a: string): nat {
    if a == "" then 0
    else if '0' <= a[|a| - 1] <= '9' then 10 * NumberIn(a[..|a| - 1]) + (a[|a| - 1] - '0') as nat
    else NumberIn(a[..|a| - 1])
  }

  predicate IsField(a: string) { '.' !in a && '\0' !in a }

  lemma {:induction false} ParseField(a: string, s: string, o: Octets, idx: nat)
    requires idx < 4 && o[idx] == 0 && IsField(a)
    ensures ParseFrom(a + s, o, idx) == ParseFrom(s, o[idx := NumberIn(a) % TWO_32], idx)
    decreases |a|
  {
    if a == "" {
      assert a + s == s && o[idx := 0] == o;
    } else {
      var b, c := a[..|a| - 1], a[|a| - 1];
      assert a == b + [c] && a + s == b + ([c] + s) && ([c] + s)[1..] == s;
      ParseField(b, [c] + s, o, idx);
      var v := NumberIn(b) % TWO_32;
      assert o[idx := v][idx := NumberIn(a) % TWO_32] == o[idx := NumberIn(a) % TWO_32];
      if IsDigit(c) {
        AddDigit(NumberIn(b), (c - '0') as nat);
      }
    }
  }

  lemma AddDigit(n: nat, d: nat)
    ensures (n % TWO_32 * 10 + d) % TWO_32 == (10 * n + d) % TWO_32
  {
    assert 10 * n + d == n % TWO_32 * 10 + d + TWO_32 * (n / TWO_32 * 10);
    DropMultiple(n % TWO_32 * 10 + d, n / TWO_32 * 10);
  }

  lemma DropMultiple(x: nat, k: nat)
    ensures (x + TWO_32 * k) % TWO_32 == x % TWO_32
  {
  }

  // Fields with a dot between each two, then the rest of the text.
  function Joined(fields: seq<string>, rest: string): string {
    if fields == [] then rest
    else fields[0] + (if |fields| > 1 then "." + Joined(fields[1..], rest) else rest)
  }

  // What the i-th field stands for.
  function OctetAt(fields: seq<string>, i: nat): Word {
    if i < |fields| then NumberIn(fields[i]) % 0x1_0000_0000 else 0
  }

  lemma {:induction false} ParseFields(fields: seq<string>, rest: string, o: Octets, idx: nat)
    requires 1 <= |fields| <= 4 - idx && (forall a :: a in fields ==> IsField(a))
    requires forall i :: idx <= i < 4 ==> o[i] == 0
    requires rest == "" || rest[0] == '\0' || (|fields| == 4 - idx && rest[0] == '.')
    ensures var p := ParseFrom(Joined(fields, rest), o, idx);
      (forall i :: 0 <= i < idx ==> p[i] == o[i]) && forall k: nat :: k < 4 - idx ==> p[idx + k] == OctetAt(fields, k)
    decreases |fields|
  {
    hide NumberIn;
    var p := o[idx := NumberIn(fields[0]) % TWO_32];
    if |fields| > 1 {
      var t := Joined(fields[1..], rest);
      ParseField(fields[0], "." + t, o, idx);
      assert ("." + t)[1..] == t;
      ParseFields(fields[1..], rest, p, idx + 1);
      assert forall i: nat :: i >= 1 ==> OctetAt(fields, i) == OctetAt(fields[1..], i - 1);
    } else {
      ParseField(fields[0], rest, o, idx);
    }
  }

  // s consists of n fields and the rest behind the last dot, or of fewer up to its end.
  ghost predicate SplitsInto(s: string, fields: seq<string>, rest: string, n: nat) {
    && s == Joined(fields, rest) && 1 <= |fields| <= n && (forall a :: a in fields ==> IsField(a))
    && (rest == "" || rest[0] == '\0' || (|fields| == n && rest[0] == '.'))
  }

  // Every text: up to four fields between dots are read up to the end, a NUL or
  // the fourth dot. What is no digit in them is passed over, a field without
  // digits and one that is missing count as 0.
  lemma ParseIpExactly(s: string)
    ensures exists fields: seq<string>, rest: string :: SplitsInto(s, fields, rest, 4)
    ensures forall fields: seq<string>, rest: string :: SplitsInto(s, fields, rest, 4) ==>
      ParseIp(s) == Combine([OctetAt(fields, 0), OctetAt(fields, 1), OctetAt(fields, 2), OctetAt(fields, 3)])
  {
    hide Combine, ParseFrom, IsField;
    FieldsExist(s, 4);
    forall fields: seq<string>, rest: string | SplitsInto(s, fields, rest, 4)
      ensures ParseIp(s) == Combine([OctetAt(fields, 0), OctetAt(fields, 1), OctetAt(fields, 2), OctetAt(fields, 3)])
    {
      FourOctets(s, fields, rest, [0, 0, 0, 0]);
    }
  }

  lemma FourOctets(s: string, fields: seq<string>, rest: string, o: Octets)
    requires SplitsInto(s, fields, rest, 4) && o == [0, 0, 0, 0]
    ensures ParseFrom(s, o, 0)
      == [OctetAt(fields, 0), OctetAt(fields, 1), OctetAt(fields, 2), OctetAt(fields, 3)]
  {
    hide ParseFrom, Joined, OctetAt;
    ParseFields(fields, rest, o, 0);
    var p := ParseFrom(s, o, 0);
    assert p[0 + 0] == OctetAt(fields, 0) && p[0 + 1] == OctetAt(fields, 1);
    assert p[0 + 2] == OctetAt(fields, 2) && p[0 + 3] == OctetAt(fields, 3);
  }

  lemma {:induction false} FieldsExist(s: string, n: nat)
    requires 1 <= n <= 4
    ensures exists fields: seq<string>, rest: string :: SplitsInto(s, fields, rest, n)
    decreases |s|
  {
    if s == "" || s[0] == '\0' {
      assert SplitsInto(s, [""], s, n);
    } else if s[0] == '.' {
      if n == 1 {
        assert SplitsInto(s, [""], s, n);
      } else {
        FieldsExist(s[1..], n - 1);
        var fields, rest :| SplitsInto(s[1..], fields, rest, n - 1);
        EmptyFieldBefore(s, fields, rest, n);
      }
    } else {
      FieldsExist(s[1..], n);
      var fields, rest :| SplitsInto(s[1..], fields, rest, n);
      FirstFieldGrows(s, fields, rest, n);
    }
  }

  lemma EmptyFieldBefore(s: string, fields: seq<string>, rest: string, n: nat)
    requires n > 1 && StartsWithDot(s) && SplitsInto(s[1..], fields, rest, n - 1)
    ensures SplitsInto(s, [""] + fields, rest, n)
  {
    assert ([""] + fields)[1..] == fields && s == "." + s[1..];
  }

  predicate StartsWithDot(s: string) { s != "" && s[0] == '.' }

  lemma FirstFieldGrows(s: string, fields: seq<string>, rest: string, n: nat)
    requires s != "" && s[0] != '.' && s[0] != '\0' && SplitsInto(s[1..], fields, rest, n)
    ensures SplitsInto(s, [[s[0]] + fields[0]] + fields[1..], rest, n)
  {
    var all := [[s[0]] + fields[0]] + fields[1..];
    assert IsField(fields[0]) && IsField(all[0]);
    assert all[1..] == fields[1..] && s == [s[0]] + s[1..];
    forall a | a in all ensures IsField(a) {
      assert a == all[0] || a in fields[1..];
    }
  }

  // -- the code ------------------------------------------------------------------

  method ParseIpLoop(s: string) returns (ip: Word)
    ensures ip == ParseIp(s)
  {
    hide Combine;
    var octets: Octets := [0, 0, 0, 0];
    var idx, i := 0, 0;
    assert s[0..] == s;
    while i < |s| && s[i] != '\0' && idx < 4
      invariant 0 <= i <= |s| && 0 <= idx <= 4
      invariant ParseFrom(s[i..], octets, idx) == ParseFrom(s, [0, 0, 0, 0], 0)
      decreases |s| - i
    {
      assert s[i..][0] == s[i] && s[i..][1..] == s[i + 1..];
      if '0' <= s[i] <= '9' {
        octets := octets[idx := (octets[idx] * 10 + (s[i] as int - '0' as int)) % TWO_32];
      } else if s[i] == '.' {
        idx := idx + 1;
      }
      i := i + 1;
    }
    return Combine(octets);
  }

  // The texts of the first i bytes, each of the first three with its dot.
  function Prefix(m: seq<Byte>, i: nat): (s: string)
    requires i <= |m| == 4
  {
    if i == 0 then "" else Prefix(m, i - 1) + Text(m[i - 1], 10) + if i < 4 then "." else ""
  }

  lemma {:induction false} PrefixSize(m: seq<Byte>, i: nat)
    requires i <= |m| == 4
    ensures |Prefix(m, i)| <= 4 * i && (i == 4 ==> |Prefix(m, i)| <= 15) && '\0' !in Prefix(m, i)
  {
    hide Text;
    if i > 0 {
      PrefixSize(m, i - 1);
      ByteTextSize(m[i - 1]);
    }
  }

  // strcpy(buf + strlen(buf), src)
  method Append(buf: array<char>, ghost s: string, src: array<char>, ghost t: string)
    requires buf != src && Holds(buf, 0, s) && Holds(src, 0, t)
    requires |s| + |t| < buf.Length && '\0' !in s && '\0' !in t
    modifies buf
    ensures Holds(buf, 0, s + t)
  {
    var len := Strlen(buf, s);
    Strcpy(buf, len, src, t);
  }

  method AppendDot(buf: array<char>, ghost s: string)
    requires Holds(buf, 0, s) && |s| + 1 < buf.Length && '\0' !in s
    modifies buf
    ensures Holds(buf, 0, s + ".")
  {
    var len := Strlen(buf, s);
    buf[len] := '.';
    buf[len + 1] := '\0';
  }

  // net_format_ip into a buffer of 16 characters.
  method NetFormatIp(ip: Word, buf: array<char>)
    requires buf.Length >= 16
    modifies buf
    ensures var m := P.Bytes4(ip); Holds(buf, 0, Quad(m[0], m[1], m[2], m[3]))
  {
    hide Text, P.Bytes4, Prefix, Quad;
    var m := P.Bytes4(ip);
    BytesOfWord(ip);
    PrefixNext(m, 0);
    var tmp := new char[4];
    buf[0] := '\0';
    for i := 0 to 4
      invariant Holds(buf, 0, Prefix(m, i))
    {
      ByteTextSize(m[i]);
      PrefixSize(m, i);
      PrefixSize(m, i + 1);
      PrefixNext(m, i);
      Itoa(m[i], tmp, 10);
      Append(buf, Prefix(m, i), tmp, Text(m[i], 10));
      if i < 3 { AppendDot(buf, Prefix(m, i) + Text(m[i], 10)); }
    }
    PrefixIsQuad(m);
  }

  lemma PrefixNext(m: seq<Byte>, i: nat)
    requires i < |m| == 4
    ensures Prefix(m, 0) == ""
    ensures Prefix(m, i + 1) == Prefix(m, i) + Text(m[i], 10) + if i < 3 then "." else ""
  {
  }

  lemma BytesOfWord(ip: Word)
    ensures |P.Bytes4(ip)| == 4
  {
  }

  lemma PrefixIsQuad(m: seq<Byte>)
    requires |m| == 4
    ensures Prefix(m, 4) == Quad(m[0], m[1], m[2], m[3])
  {
    hide Text;
    assert Prefix(m, 1) == Text(m[0], 10) + ".";
    assert Prefix(m, 2) == Prefix(m, 1) + Text(m[1], 10) + ".";
    assert Prefix(m, 3) == Prefix(m, 2) + Text(m[2], 10) + ".";
    assert Prefix(m, 4) == Prefix(m, 3) + Text(m[3], 10);
  }
}
