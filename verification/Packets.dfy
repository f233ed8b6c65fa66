// net/net.c and net/net.h: byte order, the checksum loop, and the headers that
// carry a checksum. Multi-byte fields are stored as the little-endian machine
// stores them.
module Packets {
  import opened Machine
  import opened InternetChecksum

  // (v >> 8) | (v << 8) in 16 bits
  function Htons(v: Half): Half { v / 256 + v % 256 * 256 }

  function Htonl(v: Word): Word {
    v / 0x100_0000 + v / 0x1_0000 % 256 * 0x100 + v / 0x100 % 256 * 0x1_0000 + v % 256 * 0x100_0000
  }

  // The bytes of a 16-bit and of a 32-bit store.
  function Bytes2(v: Half): seq<Byte> { [v % 256, v / 256] }
  function Bytes4(v: Word): seq<Byte> {
    [v % 256, v / 0x100 % 256, v / 0x1_0000 % 256, v / 0x100_0000]
  }

  // Storing a converted value puts its most significant byte first.
  lemma HtonsIsNetworkOrder(v: Half)
    ensures Bytes2(Htons(v)) == [v / 256, v % 256] && Htons(Htons(v)) == v
  {
  }

  lemma HtonlIsNetworkOrder(v: Word)
    ensures Bytes4(Htonl(v)) == [v / 0x100_0000, v / 0x1_0000 % 256, v / 0x100 % 256, v % 256]
    ensures Htonl(Htonl(v)) == v
  {
    var a, b, c, d := v / 0x100_0000, v / 0x1_0000 % 256, v / 0x100 % 256, v % 256;
    Recompose(a, b, c, d);
    Decompose(v);
  }

  lemma Decompose(v: Word)
    ensures v == v % 256 + v / 0x100 % 256 * 0x100 + v / 0x1_0000 % 256 * 0x1_0000 + v / 0x100_0000 * 0x100_0000
  {
  }

  lemma Recompose(a: Byte, b: Byte, c: Byte, d: Byte)
    ensures var v := a + b * 0x100 + c * 0x1_0000 + d * 0x100_0000;
      0 <= v < TWO_32 && v % 256 == a && v / 0x100 % 256 == b && v / 0x1_0000 % 256 == c && v / 0x100_0000 == d
  {
    var v := a + b * 0x100 + c * 0x1_0000 + d * 0x100_0000;
    LowByte(a, b + c * 0x100 + d * 0x1_0000);
    Quotient(v, 0x100, b + c * 0x100 + d * 0x1_0000, a);
    LowByte(b, c + d * 0x100);
    Quotient(v, 0x1_0000, c + d * 0x100, a + b * 0x100);
    LowByte(c, d);
    Quotient(v, 0x100_0000, d, a + b * 0x100 + c * 0x1_0000);
  }

  lemma LowByte(a: Byte, rest: nat)
    ensures (a + rest * 0x100) % 256 == a
  {
  }

  // Dividing by a power of 256 drops the bytes below it.
  lemma Quotient(v: nat, unit: nat, q: nat, r: nat)
    requires unit in {0x100, 0x1_0000, 0x100_0000} && r < unit
    requires v == r + (if unit == 0x100 then q * 0x100 else if unit == 0x1_0000 then q * 0x1_0000 else q * 0x100_0000)
    ensures unit == 0x100 ==> v / 0x100 == q
    ensures unit == 0x1_0000 ==> v / 0x1_0000 == q
    ensures unit == 0x100_0000 ==> v / 0x100_0000 == q
  {
  }

  // checksum: len is an unsigned 16-bit count, sum an unsigned 32-bit register.
  method ChecksumLoop(data: array<Byte>, len: Half) returns (r: Half)
    requires len <= data.Length
    ensures r == Checksum(data[..len])
  {
    var d := data[..len];
    SumFits(d);
    var sum: Word := 0;
    var i := 0;
    while len - i > 1
      invariant 0 <= i <= len && WordSum(d) == sum + WordSum(d[i..])
    {
      assert d[i..][2..] == d[i + 2..];
      sum := sum + WordOf(data[i], data[i + 1]);
      i := i + 2;
    }
    if len - i == 1 {
      sum := sum + data[i];
    }
    assert sum == WordSum(d);
    while sum / TWO_16 != 0
      invariant Fold(sum) == Fold(WordSum(d))
      decreases sum
    {
      sum := sum % TWO_16 + sum / TWO_16;
    }
    r := 0xFFFF - sum;
  }

  // The IP header that ip_send writes, with its checksum field still zero.
  function IpHeader(totalLen: Half, id: Half, protocol: Byte, src: Word, dst: Word): (h: seq<Byte>)
    ensures |h| == 20 && h[10] == 0 && h[11] == 0
  {
    [0x45, 0] + Bytes2(Htons(totalLen)) + Bytes2(Htons(id)) + [0, 0, 64, protocol, 0, 0]
      + Bytes4(Htonl(src)) + Bytes4(Htonl(dst))
  }

  // Field by field, most significant byte first, as section 3.1 of RFC 791 lays
  // the header out.
  lemma IpHeaderLayout(totalLen: Half, id: Half, protocol: Byte, src: Word, dst: Word)
    ensures IpHeader(totalLen, id, protocol, src, dst) ==
      [0x45, 0, totalLen / 256, totalLen % 256, id / 256, id % 256, 0, 0, 64, protocol, 0, 0,
       src / 0x100_0000, src / 0x1_0000 % 256, src / 0x100 % 256, src % 256,
       dst / 0x100_0000, dst / 0x1_0000 % 256, dst / 0x100 % 256, dst % 256]
  {
    HtonsIsNetworkOrder(totalLen);
    HtonsIsNetworkOrder(id);
    HtonlIsNetworkOrder(src);
    HtonlIsNetworkOrder(dst);
    hide Htons, Htonl, Bytes2, Bytes4;
  }

  class Sender {
    const ourIp: Word
    var ipIdCounter: Half

    constructor (ourIp: Word)
      ensures this.ourIp == ourIp && ipIdCounter == 1
    {
      this.ourIp, ipIdCounter := ourIp, 1;
    }

    // ip_send up to the resolution of the destination's hardware address: the
    // packet it would hand to eth_send.
    method IpPacket(dst: Word, protocol: Byte, payload: seq<Byte>) returns (packet: array<Byte>)
      requires 20 + |payload| <= 1500
      modifies this`ipIdCounter
      ensures fresh(packet) && packet.Length == 20 + |payload|
      ensures ipIdCounter == (old(ipIdCounter) + 1) % TWO_16
      ensures var h := IpHeader(20 + |payload|, old(ipIdCounter), protocol, ourIp, dst);
        0 <= Checksum(h) <= 0xFFFF && packet[..] == StoreHalf(h, 10, Checksum(h)) + payload
      ensures Checksum(packet[..20]) == 0 && Fold(NetworkSum(packet[..20])) == 0xFFFF
    {
      hide IpHeader, Checksum, WordSum, NetworkSum, Fold;
      packet := new Byte[20 + |payload|](_ => 0);
      var h := IpHeader(20 + |payload|, ipIdCounter, protocol, ourIp, dst);
      ipIdCounter := (ipIdCounter + 1) % TWO_16;
      CopyInto(packet, 0, h);
      var c := ChecksumLoop(packet, 20);
      assert packet[..20] == h;
      StoredChecksumVerifies(h, 10);
      packet[10], packet[11] := c % 256, c / 256;
      assert packet[..20] == StoreHalf(h, 10, c);
      CopyInto(packet, 20, payload);
      assert packet[..20] == StoreHalf(h, 10, c);
      assert packet[..] == packet[..20] + packet[20..];
    }
  }

  // memcpy
  method CopyInto(a: array<Byte>, at: nat, bytes: seq<Byte>)
    requires at + |bytes| <= a.Length
    modifies a
    ensures a[..] == old(a[..at]) + bytes + old(a[at + |bytes|..])
  {
    for i := 0 to |bytes|
      invariant forall k :: 0 <= k < a.Length ==> a[k] == if at <= k < at + i then bytes[k - at] else old(a[k])
    {
      a[at + i] := bytes[i];
    }
  }

  lemma EchoBody(request: seq<Byte>, zero: seq<Byte>, head: seq<Byte>, d: seq<Byte>)
    requires 8 <= |request| == |zero| && forall i :: 0 <= i < |zero| ==> zero[i] == 0
    requires head == zero[..4] + request[4..8] + zero[8..]
    requires d == if |request| > 8 then head[..8] + request[8..] + head[|request|..] else head
    ensures d == [0, 0, 0, 0] + request[4..]
  {
    assert zero[..4] == [0, 0, 0, 0];
    assert head[..8] == [0, 0, 0, 0] + request[4..8];
    assert request[4..] == request[4..8] + request[8..];
  }

  // The reply of handle_icmp to an echo request of 8 to 1500 bytes.
  method EchoReply(request: seq<Byte>) returns (reply: array<Byte>)
    requires 8 <= |request| <= 1500
    ensures fresh(reply) && reply.Length == |request|
    ensures reply[0] == 0 && reply[1] == 0 && reply[4..] == request[4..]
    ensures Checksum(reply[..]) == 0 && Fold(NetworkSum(reply[..])) == 0xFFFF
  {
    hide Checksum, WordSum, NetworkSum, Fold;
    reply := new Byte[|request|](_ => 0);
    ghost var zero := reply[..];
    CopyInto(reply, 4, request[4..8]);
    ghost var head := reply[..];
    if |request| > 8 {
      CopyInto(reply, 8, request[8..]);
    }
    ghost var d := reply[..];
    EchoBody(request, zero, head, d);
    var c := ChecksumLoop(reply, |request|);
    assert reply[..|request|] == d;
    StoredChecksumVerifies(d, 2);
    reply[2], reply[3] := c % 256, c / 256;
    assert reply[..] == StoreHalf(d, 2, c);
  }
}
