// The Internet checksum of RFC 1071, sections 1 and 2, and what checksum in
// net/net.c computes on a little-endian machine.
module InternetChecksum {
  import opened Machine

  function WordOf(lo: Byte, hi: Byte): Half { lo as int + 256 * hi as int }

  // The 16-bit words of a buffer as the machine loads them, an odd last byte
  // counting as a word of its own.
  function WordSum(d: seq<Byte>): nat {
    if d == [] then 0
    else if |d| == 1 then d[0]
    else WordOf(d[0], d[1]) + WordSum(d[2..])
  }

  // The same in network byte order, the odd last byte padded with a zero.
  function NetworkSum(d: seq<Byte>): nat {
    if d == [] then 0
    else if |d| == 1 then 256 * d[0]
    else 256 * d[0] + d[1] + NetworkSum(d[2..])
  }

  // The loop that adds the carries back in.
  function Fold(sum: nat): nat {
    if sum / TWO_16 == 0 then sum else Fold(sum % TWO_16 + sum / TWO_16)
  }

  // ~sum in 16 bits
  function Complement(h: nat): int { 0xFFFF - h }

  function Checksum(d: seq<Byte>): int { Complement(Fold(WordSum(d))) }

  // One's complement addition of 16-bit words: the carry goes around.
  function OnesAdd(a: Half, b: Half): Half {
    if a + b < TWO_16 then a + b else a + b - 0xFFFF
  }

  function OnesSum(d: seq<Byte>): Half {
    if d == [] then 0
    else if |d| == 1 then d[0]
    else OnesAdd(WordOf(d[0], d[1]), OnesSum(d[2..]))
  }

  // The 16-bit one's complement representative of a sum: zero only for zero.
  function Rep(sum: nat): Half {
    if sum == 0 then 0 else (sum - 1) % 0xFFFF + 1
  }

  lemma SmallRep(sum: nat)
    requires sum <= 0xFFFF
    ensures Rep(sum) == sum
  {
  }

  lemma RepPeriod(sum: nat, q: nat)
    requires sum > 0
    ensures Rep(sum + 0xFFFF * q) == Rep(sum)
  {
    Remainder(sum - 1 + 0xFFFF * q, (sum - 1) / 0xFFFF + q, (sum - 1) % 0xFFFF);
  }

  lemma Remainder(x: int, q: int, r: int)
    requires x == 0xFFFF * q + r && 0 <= r < 0xFFFF
    ensures x % 0xFFFF == r
  {
  }

  lemma {:induction false} FoldIsRep(sum: nat)
    ensures Fold(sum) == Rep(sum)
    decreases sum
  {
    if sum / TWO_16 == 0 {
      SmallRep(sum);
    } else {
      var next := sum % TWO_16 + sum / TWO_16;
      FoldIsRep(next);
      assert sum == next + 0xFFFF * (sum / TWO_16);
      RepPeriod(next, sum / TWO_16);
    }
  }

  lemma RepAdds(a: Half, sum: nat)
    ensures OnesAdd(a, Rep(sum)) == Rep(a + sum)
  {
    if sum > 0 {
      var r := Rep(sum);
      assert sum == r + 0xFFFF * ((sum - 1) / 0xFFFF);
      RepPeriod(a + r, (sum - 1) / 0xFFFF);
      if a + r < TWO_16 {
        SmallRep(a + r);
      } else {
        SmallRep(a + r - 0xFFFF);
        RepPeriod(a + r - 0xFFFF, 1);
      }
    } else {
      SmallRep(a);
    }
  }

  // The 32-bit accumulation with one fold at the end is one's complement
  // addition of all the words.
  lemma {:induction false} ChecksumIsOnesComplement(d: seq<Byte>)
    ensures Fold(WordSum(d)) == OnesSum(d)
  {
    hide Fold, OnesAdd, Rep;
    FoldIsRep(WordSum(d));
    if |d| < 2 {
      SmallRep(WordSum(d));
    } else {
      ChecksumIsOnesComplement(d[2..]);
      FoldIsRep(WordSum(d[2..]));
      RepAdds(WordOf(d[0], d[1]), WordSum(d[2..]));
    }
  }

  // The accumulator does not overflow for any 16-bit length.
  lemma {:induction false} SumFits(d: seq<Byte>)
    ensures WordSum(d) <= 0xFFFF * ((|d| + 1) / 2)
    ensures |d| < TWO_16 ==> WordSum(d) < TWO_32
  {
    if |d| >= 2 {
      SumFits(d[2..]);
    }
  }

  // -- a stored checksum makes the sum come out as zero -------------------------

  // The two bytes of a word in memory order.
  function StoreHalf(d: seq<Byte>, at: nat, h: Half): seq<Byte>
    requires at + 2 <= |d|
  {
    d[at := h % 256][at + 1 := h / 256]
  }

  lemma {:induction false} SumWithField(d: seq<Byte>, at: nat, h: Half)
    requires at % 2 == 0 && at + 2 <= |d| && d[at] == 0 && d[at + 1] == 0
    ensures WordSum(StoreHalf(d, at, h)) == WordSum(d) + h
  {
    var e := StoreHalf(d, at, h);
    if at == 0 {
      assert e[2..] == d[2..];
    } else {
      SumWithField(d[2..], at - 2, h);
      assert e[2..] == StoreHalf(d[2..], at - 2, h);
    }
  }

  lemma {:induction false} NetworkSumIsShifted(d: seq<Byte>)
    ensures exists q: nat :: 256 * WordSum(d) == NetworkSum(d) + 0xFFFF * q
    ensures NetworkSum(d) == 0 <==> WordSum(d) == 0
  {
    if d == [] {
      assert 256 * WordSum(d) == NetworkSum(d) + 0xFFFF * 0;
    } else if |d| == 1 {
      assert 256 * WordSum(d) == NetworkSum(d) + 0xFFFF * 0;
    } else {
      NetworkSumIsShifted(d[2..]);
      var q: nat :| 256 * WordSum(d[2..]) == NetworkSum(d[2..]) + 0xFFFF * q;
      assert 256 * WordSum(d) == NetworkSum(d) + 0xFFFF * (q + d[1]);
    }
  }

  // With its checksum stored in a zeroed field at an even offset, a buffer has
  // checksum zero, as the machine computes it and in network byte order alike.
  lemma StoredChecksumVerifies(d: seq<Byte>, at: nat)
    requires at % 2 == 0 && at + 2 <= |d| && d[at] == 0 && d[at + 1] == 0
    ensures 0 <= Checksum(d) <= 0xFFFF
    ensures var e := StoreHalf(d, at, Checksum(d)); Checksum(e) == 0 && Fold(NetworkSum(e)) == 0xFFFF
  {
    hide Fold;
    var s := WordSum(d);
    FoldIsRep(s);
    var h := Checksum(d);
    var e := StoreHalf(d, at, h);
    SumWithField(d, at, h);
    var k := if s == 0 then 1 else (s - 1) / 0xFFFF + 1;
    assert WordSum(e) == 0xFFFF * k;
    FoldIsRep(0xFFFF * k);
    FoldMultiple(k);
    NetworkSumIsShifted(e);
    var q: nat :| 256 * WordSum(e) == NetworkSum(e) + 0xFFFF * q;
    var m := 256 * k - q;
    assert NetworkSum(e) == 0xFFFF * m;
    FoldMultiple(m);
  }

  lemma FoldMultiple(k: int)
    requires k > 0
    ensures Fold(0xFFFF * k) == 0xFFFF
  {
    FoldIsRep(0xFFFF * k);
    Remainder(0xFFFF * k - 1, k - 1, 0xFFFE);
  }
}
