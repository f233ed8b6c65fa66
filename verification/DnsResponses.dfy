// The response walker of handle_udp: it finds the first address record of every
// well-formed response.
module DnsResponses {
  import opened Machine
  import opened DnsMessages

  // -- the walker, on the bytes from ptr to the end -----------------------------------

  // Moving ptr on; past the end nothing is left to look at.
  function Drop(d: Bytes, n: nat): (r: Bytes)
    ensures |r| == if n <= |d| then |d| - n else 0
  {
    if n <= |d| then d[n..] else []
  }

  function SkipQuestion(d: Bytes): Bytes
    decreases |d|
  {
    if d == [] || d[0] == 0 then Drop(d, 5)
    else if d[0] >= 192 then Drop(d, 2)
    else SkipQuestion(Drop(d, d[0] as nat + 1))
  }

  function SkipLabels(d: Bytes): (r: Bytes)
    ensures |r| <= |d|
    decreases |d|
  {
    if d == [] || d[0] == 0 then d else SkipLabels(Drop(d, d[0] as nat + 1))
  }

  function SkipName(d: Bytes): (r: Bytes)
    requires d != []
    ensures |r| <= |d|
  {
    if d[0] >= 192 then Drop(d, 2) else Drop(SkipLabels(d), 1)
  }

  function Answers(d: Bytes, count: nat): Option<Word>
    decreases count
  {
    if count == 0 || |d| < 12 then None
    else
      var r := SkipName(d);
      if |r| < 10 then None
      else if Word16(r, 0) == DNS_TYPE_A && Word16(r, 8) == 4 && |r| >= 14 then Some(Word32(r, 10))
      else Answers(Drop(r, 10 + Word16(r, 8)), count - 1)
  }

  // The address that a DNS payload sets dns_result_ip to, if any.
  function Walk(data: Bytes, queryId: Half): Option<Word> {
    if |data| < DNS_HEADER || Word16(data, 0) != queryId || Word16(data, 2) < 0x8000 then None
    else Answers(SkipQuestion(data[DNS_HEADER..]), Word16(data, 6))
  }

  // -- well-formed responses: section 4.1 of RFC 1035 ------------------------------------

  // A resource record; meta is its class and time to live.
  datatype Record = Record(name: Name, rtype: Half, meta: Bytes, rdata: Bytes)

  predicate ValidRecord(r: Record) {
    ValidName(r.name) && |r.meta| == 6 && |r.rdata| < TWO_16
  }

  function AfterName(r: Record): Bytes
    requires ValidRecord(r)
  {
    Be16(r.rtype) + r.meta + Be16(|r.rdata|) + r.rdata
  }

  function RecordBytes(rs: seq<Record>): Bytes
    requires forall r :: r in rs ==> ValidRecord(r)
  {
    if rs == [] then [] else NameBytes(rs[0].name) + (AfterName(rs[0]) + RecordBytes(rs[1..]))
  }

  // The first record of type A with four bytes of data.
  function FirstAddress(rs: seq<Record>): Option<Word> {
    if rs == [] then None
    else if rs[0].rtype == DNS_TYPE_A && |rs[0].rdata| == 4 then Some(Word32(rs[0].rdata, 0))
    else FirstAddress(rs[1..])
  }

  lemma DropLabel(l: WireLabel, rest: Bytes)
    ensures var d := [|l|] + l + rest; d[0] == |l| && Drop(d, d[0] as nat + 1) == rest
  {
    var d := [|l|] + l + rest;
    assert d[|l| + 1..] == rest;
  }

  lemma FirstLabel(labels: seq<WireLabel>, rest: Bytes)
    ensures var d := LabelBytes(labels) + rest;
      if labels == [] then d == rest
      else d != [] && d[0] == |labels[0]| && Drop(d, d[0] as nat + 1) == LabelBytes(labels[1..]) + rest
  {
    hide Drop;
    if labels != [] {
      var first, more := [|labels[0]|] + labels[0], LabelBytes(labels[1..]);
      assert LabelBytes(labels) == first + more;
      hide LabelBytes;
      Regroup(first, more, rest);
      DropLabel(labels[0], more + rest);
    }
  }

  lemma {:induction false} SkipsLabels(labels: seq<WireLabel>, rest: Bytes)
    ensures SkipLabels(LabelBytes(labels) + rest) == SkipLabels(rest)
  {
    hide LabelBytes, Drop;
    FirstLabel(labels, rest);
    if labels != [] {
      SkipsLabels(labels[1..], rest);
    }
  }

  lemma {:induction false} SkipsQuestionLabels(labels: seq<WireLabel>, rest: Bytes)
    ensures SkipQuestion(LabelBytes(labels) + rest) == SkipQuestion(rest)
  {
    hide LabelBytes, Drop;
    FirstLabel(labels, rest);
    if labels != [] {
      SkipsQuestionLabels(labels[1..], rest);
    }
  }

  // The definition of SkipQuestion, opened once.
  lemma {:induction false} SkipOnce(d: Bytes)
    ensures SkipQuestion(d) ==
      if d == [] || d[0] == 0 then Drop(d, 5)
      else if d[0] >= 192 then Drop(d, 2)
      else SkipQuestion(Drop(d, d[0] as nat + 1))
  {
    hide Drop;
  }

  // The walker lands after QTYPE and QCLASS exactly when the name of the question
  // ends in the root; after a pointer it lands before them.
  lemma SkipsQuestion(n: Name, qtype: Bytes, rest: Bytes)
    requires ValidName(n) && |qtype| == 4
    ensures SkipQuestion(NameBytes(n) + (qtype + rest)) == if n.end.Root? then rest else qtype + rest
    ensures SkipQuestion(NameBytes(n) + (qtype + rest)) == rest <==> n.end.Root?
  {
    var tail := qtype + rest;
    var d := EndBytes(n.end) + tail;
    hide SkipQuestion, LabelBytes;
    Regroup(LabelBytes(n.labels), EndBytes(n.end), tail);
    SkipsQuestionLabels(n.labels, d);
    SkipOnce(d);
    assert n.end.Root? ==> d[5..] == rest;
    assert n.end.Pointer? ==> d[2..] == tail;
  }

  // The walker lands after the name of an answer exactly when the name does not
  // mix labels and a pointer, or nothing follows. It takes such a pointer for a
  // label of at least 192 bytes.
  lemma SkipsName(n: Name, tail: Bytes)
    requires ValidName(n)
    ensures NameBytes(n) + tail != []
    ensures SkipName(NameBytes(n) + tail) == tail <==> !Mixed(n) || tail == []
    ensures Mixed(n) ==> |SkipName(NameBytes(n) + tail)| <= if |tail| <= 192 then 0 else |tail| - 192
  {
    hide LabelBytes;
    var d := EndBytes(n.end) + tail;
    Regroup(LabelBytes(n.labels), EndBytes(n.end), tail);
    FirstLabel(n.labels, d);
    SkipsLabels(n.labels, d);
    match n.end {
      case Root =>
        assert d[1..] == tail;
      case Pointer(hi, lo) =>
        assert d[2..] == tail;
        PointerAsLabel(d);
    }
  }

  lemma {:induction false} PointerAsLabel(d: Bytes)
    requires d != [] && d[0] >= 192
    ensures |Drop(SkipLabels(d), 1)| <= if |d| <= 194 then 0 else |d| - 194
  {
    var e := Drop(d, d[0] as nat + 1);
    assert SkipLabels(d) == SkipLabels(e);
    hide SkipLabels;
  }

  lemma HeaderOfRecord(r: Record, tail: Bytes)
    requires ValidRecord(r)
    ensures var d := AfterName(r) + tail;
      |d| >= 10 + |r.rdata| && Word16(d, 0) == r.rtype && Word16(d, 8) == |r.rdata|
      && Drop(d, 10 + |r.rdata|) == tail && (|r.rdata| == 4 ==> Word32(d, 10) == Word32(r.rdata, 0))
  {
    var d := AfterName(r) + tail;
    assert Be16(r.rtype)[0] as int * 256 + Be16(r.rtype)[1] as int == r.rtype;
    assert Be16(|r.rdata|)[0] as int * 256 + Be16(|r.rdata|)[1] as int == |r.rdata|;
    assert d[10..10 + |r.rdata|] == r.rdata;
    assert d[10 + |r.rdata|..] == tail;
    if |r.rdata| == 4 {
      assert d[10] == r.rdata[0] && d[11] == r.rdata[1] && d[12] == r.rdata[2] && d[13] == r.rdata[3];
    }
  }

  lemma {:induction false} RoomForAddress(rs: seq<Record>)
    requires forall r :: r in rs ==> ValidRecord(r)
    requires FirstAddress(rs).Some?
    ensures |RecordBytes(rs)| >= 15
  {
    assert ValidRecord(rs[0]) && |NameBytes(rs[0].name)| >= 1 && |AfterName(rs[0])| == 10 + |rs[0].rdata|;
    if !IsAddress(rs[0]) {
      RoomForAddress(rs[1..]);
    }
  }

  predicate IsAddress(r: Record) { r.rtype == DNS_TYPE_A && |r.rdata| == 4 }

  // No name mixes labels and a pointer up to the first address, if there is one.
  predicate PlainUpToAddress(rs: seq<Record>) {
    rs == [] || (!Mixed(rs[0].name) && (IsAddress(rs[0]) || PlainUpToAddress(rs[1..])))
  }

  // The first address belongs to the first record of type 1 with four bytes of
  // data, which are its bytes, most significant first.
  lemma {:induction false} FirstAddressExactly(rs: seq<Record>, k: nat)
    requires k < |rs| && rs[k].rtype == 1 && |rs[k].rdata| == 4
    requires forall j: nat :: j < k ==> !(rs[j].rtype == 1 && |rs[j].rdata| == 4)
    ensures var b := rs[k].rdata;
      FirstAddress(rs) == Some(b[0] as int * 0x100_0000 + b[1] as int * 0x1_0000 + b[2] as int * 0x100 + b[3] as int)
    decreases k
  {
    if k > 0 {
      assert rs[1..][k - 1] == rs[k];
      forall j: nat | j < k - 1 ensures !(rs[1..][j].rtype == 1 && |rs[1..][j].rdata| == 4) {
        assert rs[1..][j] == rs[j + 1];
      }
      FirstAddressExactly(rs[1..], k - 1);
    }
  }

  lemma {:induction false} NoAddressExactly(rs: seq<Record>)
    requires forall j: nat :: j < |rs| ==> !(rs[j].rtype == 1 && |rs[j].rdata| == 4)
    ensures FirstAddress(rs) == None
  {
    if rs != [] {
      forall j: nat | j < |rs[1..]| ensures !(rs[1..][j].rtype == 1 && |rs[1..][j].rdata| == 4) {
        assert rs[1..][j] == rs[j + 1];
      }
      NoAddressExactly(rs[1..]);
    }
  }

  // The bytes of a record: type, class and time to live, length and data (section
  // 4.1.3 of RFC 1035).
  lemma RecordExactly(r: Record)
    requires ValidRecord(r)
    ensures AfterName(r) ==
      [r.rtype / 256, r.rtype % 256] + r.meta + [|r.rdata| / 256, |r.rdata| % 256] + r.rdata
  {
  }

  // One round of the walker over a record.
  lemma WalksRecord(r: Record, rest: Bytes, count: nat)
    requires ValidRecord(r)
    ensures var d := NameBytes(r.name) + (AfterName(r) + rest);
      && (Mixed(r.name) && |d| <= 194 ==> Answers(d, count + 1) == None)
      && (!Mixed(r.name) ==>
        Answers(d, count + 1) ==
        if |d| < 12 then None else if IsAddress(r) then Some(Word32(r.rdata, 0)) else Answers(rest, count))
  {
    hide SkipName, Word16, Word32, AfterName, NameBytes, Drop;
    SkipsName(r.name, AfterName(r) + rest);
    HeaderOfRecord(r, rest);
    NameSize(r.name);
  }

  lemma NameSize(n: Name)
    ensures |NameBytes(n)| >= if n.end.Root? then 1 else 2
  {
  }

  // Records of other types and sizes are skipped, whatever follows the address.
  lemma {:induction false} FindsFirstAddress(rs: seq<Record>, tail: Bytes)
    requires (forall r :: r in rs ==> ValidRecord(r)) && PlainUpToAddress(rs)
    ensures Answers(RecordBytes(rs) + tail, |rs|) == FirstAddress(rs)
  {
    hide AfterName, NameBytes, Word32, Answers;
    var d := RecordBytes(rs) + tail;
    if rs == [] {
      AnswersNone(d);
    } else {
      var r := rs[0];
      var rest := RecordBytes(rs[1..]) + tail;
      assert d == NameBytes(r.name) + (AfterName(r) + rest);
      WalksRecord(r, rest, |rs| - 1);
      if FirstAddress(rs).Some? { RoomForAddress(rs); }
      if !IsAddress(r) { FindsFirstAddress(rs[1..], tail); }
    }
  }

  lemma AnswersNone(d: Bytes)
    ensures Answers(d, 0) == None
  {
  }

  // With at most 194 bytes left from the answers on, the walker finds the first
  // address exactly when no mixed name stands before or at it, and otherwise finds
  // nothing.
  lemma {:induction false} ShortAnswersExactly(rs: seq<Record>, tail: Bytes)
    requires (forall r :: r in rs ==> ValidRecord(r)) && |RecordBytes(rs)| + |tail| <= 194
    ensures Answers(RecordBytes(rs) + tail, |rs|) == if PlainUpToAddress(rs) then FirstAddress(rs) else None
  {
    hide AfterName, NameBytes, Word32, Answers;
    var d := RecordBytes(rs) + tail;
    if rs == [] {
      AnswersNone(d);
    } else {
      var r := rs[0];
      var rest := RecordBytes(rs[1..]) + tail;
      assert d == NameBytes(r.name) + (AfterName(r) + rest);
      WalksRecord(r, rest, |rs| - 1);
      if FirstAddress(rs).Some? { RoomForAddress(rs); }
      if !Mixed(r.name) && !IsAddress(r) { ShortAnswersExactly(rs[1..], tail); }
    }
  }

  predicate ValidMessage(counts: Bytes, question: Name, qtype: Bytes, answers: seq<Record>) {
    && |counts| == 6 && |qtype| == 4 && |answers| < TWO_16 && ValidName(question)
    && forall r :: r in answers ==> ValidRecord(r)
  }

  // A response to our query: id, flags, counts, the question, the answers, and
  // any bytes after them.
  function Response(id: Half, flags: Half, counts: Bytes, question: Name, qtype: Bytes,
                    answers: seq<Record>, tail: Bytes): Bytes
    requires ValidMessage(counts, question, qtype, answers)
  {
    Be16(id) + Be16(flags) + counts[..2] + Be16(|answers|) + counts[2..]
      + (NameBytes(question) + (qtype + (RecordBytes(answers) + tail)))
  }

  lemma WalkFindsFirstAddress(id: Half, flags: Half, counts: Bytes, question: Name, qtype: Bytes,
                              answers: seq<Record>, tail: Bytes)
    requires ValidMessage(counts, question, qtype, answers) && question.end.Root?
    ensures var d := Response(id, flags, counts, question, qtype, answers, tail);
      forall queryId: Half ::
        && (id != queryId || flags < 0x8000 ==> Walk(d, queryId) == None)
        && (id == queryId && flags >= 0x8000 ==>
          && (PlainUpToAddress(answers) ==> Walk(d, queryId) == FirstAddress(answers))
          && (|RecordBytes(answers)| + |tail| <= 194 && !PlainUpToAddress(answers) ==> Walk(d, queryId) == None))
  {
    hide Response, Answers, SkipQuestion, RecordBytes, NameBytes, FirstAddress, PlainUpToAddress, Word16, Drop;
    ResponseParts(id, flags, counts, question, qtype, answers, tail);
    var rest := RecordBytes(answers) + tail;
    SkipsQuestion(question, qtype, rest);
    if PlainUpToAddress(answers) {
      FindsFirstAddress(answers, tail);
    } else if |RecordBytes(answers)| + |tail| <= 194 {
      ShortAnswersExactly(answers, tail);
    }
  }

  // An address under the name "a" followed by a pointer to byte 12.
  function MixedRecord(address: Bytes): Record {
    Record(Name([[97]], Pointer(0xC0, 0x0C)), DNS_TYPE_A, [0, 1, 0, 0, 0, 60], address)
  }

  // A response that consists of it holds an address, and the walker misses it.
  lemma MixedNameIsMissed(id: Half, flags: Half, counts: Bytes, question: Name, qtype: Bytes, address: Bytes)
    requires |address| == 4 && flags >= 0x8000
    requires ValidMessage(counts, question, qtype, []) && question.end.Root?
    ensures var rs := [MixedRecord(address)];
      && ValidMessage(counts, question, qtype, rs) && FirstAddress(rs) == Some(Word32(address, 0))
      && Walk(Response(id, flags, counts, question, qtype, rs, []), id) == None
  {
    var rs := [MixedRecord(address)];
    hide Walk, Response, Word32;
    assert rs[1..] == [];
    assert |RecordBytes(rs)| == 18;
    WalkFindsFirstAddress(id, flags, counts, question, qtype, rs, []);
  }

  // The fields of a response that the walker reads, and what follows the header.
  lemma ResponseParts(id: Half, flags: Half, counts: Bytes, question: Name, qtype: Bytes,
                      answers: seq<Record>, tail: Bytes)
    requires ValidMessage(counts, question, qtype, answers)
    ensures var d := Response(id, flags, counts, question, qtype, answers, tail);
      && |d| >= DNS_HEADER && Word16(d, 0) == id && Word16(d, 2) == flags && Word16(d, 6) == |answers|
      && d[DNS_HEADER..] == NameBytes(question) + (qtype + (RecordBytes(answers) + tail))
  {
    hide RecordBytes, NameBytes, Word16, Be16;
    HeaderFields(id, flags, counts, |answers|, NameBytes(question) + (qtype + (RecordBytes(answers) + tail)));
  }

  lemma HeaderFields(id: Half, flags: Half, counts: Bytes, n: Half, body: Bytes)
    requires |counts| == 6
    ensures |Be16(id)| == |Be16(flags)| == |Be16(n)| == 2
    ensures var d := Be16(id) + Be16(flags) + counts[..2] + Be16(n) + counts[2..] + body;
      && |d| >= DNS_HEADER && d[DNS_HEADER..] == body
      && Word16(d, 0) == id && Word16(d, 2) == flags && Word16(d, 6) == n
  {
    var d := Be16(id) + Be16(flags) + counts[..2] + Be16(n) + counts[2..] + body;
    assert d[0] == id / 256 && d[1] == id % 256;
    assert d[2] == flags / 256 && d[3] == flags % 256;
    assert d[6] == n / 256 && d[7] == n % 256;
  }
}
