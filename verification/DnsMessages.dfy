// DNS messages: the name encoder of net_dns_resolve and the response walker of
// handle_udp as functions, against the format of RFC 1035.
module DnsMessages {
  import opened Machine

  const DOT := 46          // '.'
  const DNS_HEADER := 12
  const DNS_TYPE_A := 1
  const DNS_CLASS_IN := 1

  type Bytes = seq<Byte>

  function Be16(v: Half): Bytes { [v / 256, v % 256] }
  function Word16(d: Bytes, p: nat): Half
    requires p + 2 <= |d|
  {
    d[p] as int * 256 + d[p + 1] as int
  }
  function Word32(d: Bytes, p: nat): Word
    requires p + 4 <= |d|
  {
    d[p] as int * 0x100_0000 + d[p + 1] as int * 0x1_0000 + d[p + 2] as int * 0x100 + d[p + 3] as int
  }

  // -- encoding a host name -------------------------------------------------------

  // Characters before the next dot or the end.
  function LabelLength(s: Bytes): (n: nat)
    ensures n <= |s|
  {
    if s == [] || s[0] == DOT then 0 else 1 + LabelLength(s[1..])
  }

  // A label behind its length byte, which wraps at 256, and what follows.
  function Framed(part: Bytes, rest: Bytes): (r: Bytes)
    ensures |r| == 1 + |part| + |rest|
  {
    [|part| % 256] + part + rest
  }

  // The outer loop of the encoder.
  function EncodeLabels(s: Bytes): (r: Bytes)
    ensures |r| <= |s| + 1
  {
    if s == [] then []
    else
      var n := LabelLength(s);
      Framed(s[..n], if n < |s| then EncodeLabels(s[n + 1..]) else [])
  }

  // The query for a host name, with header, QTYPE A and QCLASS IN.
  function Query(id: Half, hostname: Bytes): Bytes {
    Be16(id) + [1, 0, 0, 1, 0, 0, 0, 0, 0, 0] + EncodeLabels(hostname) + [0]
      + [0, DNS_TYPE_A, 0, DNS_CLASS_IN]
  }

  // -- the format: section 3.1 and 4.1.4 of RFC 1035 ---------------------------------

  // What one length byte can announce, and what a domain name allows of it.
  type ByteLabel = l: Bytes | 1 <= |l| <= 255 witness [0]
  type WireLabel = l: ByteLabel | |l| <= 63 witness [0]

  // A label that host-name text can express: dots separate labels there.
  type HostLabel = l: ByteLabel | DOT !in l witness [0]

  // A domain name in a message: labels up to the root or up to a pointer to the
  // rest of the name elsewhere.
  datatype End = Root | Pointer(hi: Byte, lo: Byte)
  datatype Name = Name(labels: seq<WireLabel>, end: End)

  predicate ValidName(n: Name) { n.end.Pointer? ==> n.end.hi >= 192 }

  // Labels followed by a pointer.
  predicate Mixed(n: Name) { n.labels != [] && n.end.Pointer? }

  function LabelBytes(labels: seq<ByteLabel>): Bytes {
    if labels == [] then [] else [|labels[0]|] + labels[0] + LabelBytes(labels[1..])
  }

  function EndBytes(end: End): Bytes {
    match end
    case Root => [0]
    case Pointer(hi, lo) => [hi, lo]
  }

  function NameBytes(n: Name): Bytes { LabelBytes(n.labels) + EndBytes(n.end) }

  // The host name as text: labels separated by dots.
  function Text(labels: seq<HostLabel>): Bytes {
    if labels == [] then []
    else if |labels| == 1 then labels[0]
    else labels[0] + [DOT] + Text(labels[1..])
  }

  lemma {:induction false} LabelLengthOf(l: Bytes, s: Bytes)
    requires DOT !in l && (s == [] || s[0] == DOT)
    ensures LabelLength(l + s) == |l|
  {
    if l == [] {
      assert l + s == s;
    } else {
      assert (l + s)[1..] == l[1..] + s;
      LabelLengthOf(l[1..], s);
    }
  }

  // The encoder's definition, opened once.
  lemma {:induction false} EncodeOnce(s: Bytes)
    requires s != []
    ensures var n := LabelLength(s);
      EncodeLabels(s) == Framed(s[..n], if n < |s| then EncodeLabels(s[n + 1..]) else [])
  {
    hide LabelLength, Framed;
  }

  // One round of the encoder's outer loop.
  lemma EncodeStep(l: HostLabel, s: Bytes)
    requires s == [] || s[0] == DOT
    ensures EncodeLabels(l + s) == [|l|] + l + if s == [] then [] else EncodeLabels(s[1..])
  {
    hide LabelLength, EncodeLabels;
    var t := l + s;
    LabelLengthOf(l, s);
    EncodeOnce(t);
    assert t[..|l|] == l;
    if s != [] {
      assert t[|l| + 1..] == s[1..];
    }
  }

  lemma Regroup(a: Bytes, b: Bytes, c: Bytes)
    ensures (a + b) + c == a + (b + c)
  {
  }

  // The encoder emits the domain name of the labels, for the name written with
  // or without a final dot.
  lemma {:induction false} EncodeIsDomainName(labels: seq<HostLabel>)
    ensures EncodeLabels(Text(labels)) == LabelBytes(labels)
    ensures labels != [] ==> EncodeLabels(Text(labels) + [DOT]) == LabelBytes(labels)
  {
    hide EncodeLabels;
    if labels == [] {
      EncodeNothing();
    } else {
      assert LabelBytes(labels) == [|labels[0]|] + labels[0] + LabelBytes(labels[1..]);
      hide LabelBytes;
      var l, rest := labels[0], labels[1..];
      EncodeIsDomainName(rest);
      if rest == [] {
        EncodeStep(l, []);
        EncodeStep(l, [DOT]);
        EncodeNothing();
        assert l + [] == l && [DOT][1..] == [];
      } else {
        var text := Text(rest);
        assert Text(labels) == (l + [DOT]) + text;
        hide Text;
        var s := [DOT] + text;
        EncodeStep(l, s);
        EncodeStep(l, s + [DOT]);
        Regroup(l, [DOT], text);
        Regroup(l, s, [DOT]);
        assert s[1..] == text && (s + [DOT])[1..] == text + [DOT];
      }
    }
  }

  lemma EncodeNothing()
    ensures EncodeLabels([]) == []
  {
  }

  // An independent reading of a domain name: the labels up to the root, and the
  // bytes that follow.
  function ReadName(d: Bytes): Option<(seq<Bytes>, Bytes)> {
    if d == [] then None
    else if d[0] == 0 then Some(([], d[1..]))
    else if d[0] > 63 || |d| < 1 + d[0] then None
    else
      match ReadName(d[1 + d[0]..])
      case None => None
      case Some((ls, rest)) => Some(([d[1..1 + d[0]]] + ls, rest))
  }

  predicate AllShort(labels: seq<ByteLabel>) { forall l :: l in labels ==> |l| <= 63 }

  // It reads back labels of at most 63 bytes, and rejects a longer one.
  lemma {:induction false} ReadNameOfLabels(labels: seq<ByteLabel>, tail: Bytes)
    ensures ReadName(LabelBytes(labels) + [0] + tail) == if AllShort(labels) then Some((labels, tail)) else None
  {
    var d := LabelBytes(labels) + [0] + tail;
    if labels == [] {
      assert d[1..] == tail;
    } else {
      var rest := LabelBytes(labels[1..]) + [0] + tail;
      assert d == [|labels[0]|] + labels[0] + rest;
      hide ReadName, LabelBytes;
      ReadNameOfLabels(labels[1..], tail);
      ReadOneLabel(labels[0], rest);
      assert labels == [labels[0]] + labels[1..];
    }
  }

  lemma ReadOneLabel(l: ByteLabel, rest: Bytes)
    ensures ReadName([|l|] + l + rest) ==
      if |l| > 63 || ReadName(rest) == None then None
      else Some(([l] + ReadName(rest).value.0, ReadName(rest).value.1))
  {
    var d := [|l|] + l + rest;
    ReadOnce(d);
    hide ReadName;
    assert d[1 + d[0]..] == rest && d[1..1 + d[0]] == l;
  }

  // The reader's definition, opened once.
  lemma {:induction false} ReadOnce(d: Bytes)
    requires d != [] && 0 < d[0] && |d| >= 1 + d[0] as nat
    ensures ReadName(d) ==
      if d[0] > 63 || ReadName(d[1 + d[0]..]) == None then None
      else
        Some(([d[1..1 + d[0]]] + ReadName(d[1 + d[0]..]).value.0, ReadName(d[1 + d[0]..]).value.1))
  {
  }

  // A resolver that reads the query finds the labels of the host name, followed
  // by QTYPE A and QCLASS IN, exactly when no label is longer than 63 bytes.
  lemma QueryAsksForHost(id: Half, labels: seq<HostLabel>)
    ensures var q := Query(id, Text(labels));
      && q[..12] == [id / 256, id % 256, 1, 0, 0, 1, 0, 0, 0, 0, 0, 0]
      && ReadName(q[12..]) == if AllShort(labels) then Some((labels, [0, 1, 0, 1])) else None
  {
    hide EncodeLabels, ReadName, LabelBytes, Text, AllShort;
    var q := Query(id, Text(labels));
    EncodeIsDomainName(labels);
    assert Be16(id) == [id / 256, id % 256];
    ReadNameOfLabels(labels, [0, DNS_TYPE_A, 0, DNS_CLASS_IN]);
    assert q[DNS_HEADER..] == LabelBytes(labels) + [0] + [0, DNS_TYPE_A, 0, DNS_CLASS_IN];
  }
}
