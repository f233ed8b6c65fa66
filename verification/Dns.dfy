// net/net.c: the loops that build a DNS query and walk a DNS response.
module Dns {
  import opened Machine
  import opened DnsMessages
  import opened DnsResponses

  // net_dns_resolve up to the sending of the query. The 256-byte buffer is not
  // checked, so the name has to fit.
  method BuildQuery(id: Half, hostname: Bytes, query: array<Byte>) returns (queryLen: nat)
    requires query.Length == 256 && |hostname| <= 238
    modifies query
    ensures queryLen == |Query(id, hostname)| && query[..queryLen] == Query(id, hostname)
  {
    hide LabelLength, EncodeLabels;
    var header: Bytes := Be16(id) + [1, 0, 0, 1, 0, 0, 0, 0, 0, 0];
    for i := 0 to DNS_HEADER
      invariant query[..i] == header[..i]
    {
      query[i] := header[i];
    }
    var ptr := EncodeName(hostname, query);
    assert query[..DNS_HEADER] == header;
    assert query[..ptr] == header + EncodeLabels(hostname);
    query[ptr] := 0;
    query[ptr + 1], query[ptr + 2] := 0, DNS_TYPE_A;
    query[ptr + 3], query[ptr + 4] := 0, DNS_CLASS_IN;
    queryLen := ptr + 5;
    assert query[..ptr] == header + EncodeLabels(hostname);
  }

  // The nested loops over src and ptr.
  method EncodeName(hostname: Bytes, query: array<Byte>) returns (ptr: nat)
    requires query.Length == 256 && |hostname| <= 238
    modifies query
    ensures ptr == DNS_HEADER + |EncodeLabels(hostname)|
    ensures query[..ptr] == old(query[..DNS_HEADER]) + EncodeLabels(hostname)
  {
    hide EncodeLabels, LabelLength;
    var src := 0;
    ptr := DNS_HEADER;
    assert hostname[0..] == hostname;
    while src < |hostname|
      invariant 0 <= src <= |hostname| && DNS_HEADER <= ptr <= DNS_HEADER + src + 1
      invariant src < |hostname| ==> ptr <= DNS_HEADER + src
      invariant query[..ptr] + EncodeLabels(hostname[src..]) == old(query[..DNS_HEADER]) + EncodeLabels(hostname)
      decreases |hostname| - src
    {
      ghost var before := query[..ptr];
      var start := src;
      src := CopyLabel(hostname, src, query, ptr);
      EncodeRound(hostname, start, src - start);
      ptr := ptr + 1 + (src - start);
      ghost var copied := [(src - start) % 256] + hostname[start..src];
      if src < |hostname| && hostname[src] == DOT {
        src := src + 1;
      } else {
        EncodeNothing();
        assert hostname[src..] == [] && hostname[start..src] == hostname[start..];
      }
      assert EncodeLabels(hostname[start..]) == copied + EncodeLabels(hostname[src..]);
      assert before + (copied + EncodeLabels(hostname[src..])) == (before + copied) + EncodeLabels(hostname[src..]);
    }
    EncodeNothing();
    assert hostname[src..] == [];
  }

  // The inner loop, with the byte in front that it fills in afterwards.
  method CopyLabel(hostname: Bytes, start: nat, query: array<Byte>, lenByte: nat) returns (src: nat)
    requires start < |hostname| && lenByte + 1 + |hostname| - start <= query.Length
    modifies query
    ensures src == start + LabelLength(hostname[start..]) && src <= |hostname|
    ensures src < |hostname| ==> hostname[src] == DOT
    ensures query[..lenByte + 1 + (src - start)] ==
      old(query[..lenByte]) + ([(src - start) % 256] + hostname[start..src])
  {
    hide LabelLength;
    src := start;
    var ptr := lenByte + 1;
    var labelLen := 0;
    while src < |hostname| && hostname[src] != DOT
      invariant start <= src <= |hostname| && ptr == lenByte + 1 + (src - start)
      invariant labelLen == (src - start) % 256
      invariant query[..lenByte] == old(query[..lenByte])
      invariant query[lenByte + 1..ptr] == hostname[start..src]
      invariant forall i :: start <= i < src ==> hostname[i] != DOT
    {
      WrapNext(src - start);
      query[ptr] := hostname[src];
      assert query[lenByte + 1..ptr + 1] == query[lenByte + 1..ptr] + [query[ptr]];
      assert hostname[start..src + 1] == hostname[start..src] + [hostname[src]];
      ptr, src := ptr + 1, src + 1;
      labelLen := (labelLen + 1) % 256;
    }
    LabelEnds(hostname, start, src);
    query[lenByte] := labelLen;
    assert query[..ptr] == query[..lenByte] + ([query[lenByte]] + query[lenByte + 1..ptr]);
  }

  // An 8-bit counter counts modulo 256.
  lemma WrapNext(n: nat)
    ensures (n % 256 + 1) % 256 == (n + 1) % 256
  {
  }

  // Taking one label of length n off the front of what is left to encode.
  lemma EncodeRound(s: Bytes, start: nat, n: nat)
    requires start < |s| && n == LabelLength(s[start..])
    ensures start + n < |s| ==>
      EncodeLabels(s[start..]) == Framed(s[start..start + n], EncodeLabels(s[start + n + 1..]))
    ensures start + n == |s| ==> EncodeLabels(s[start..]) == Framed(s[start..], [])
  {
    hide LabelLength, EncodeLabels;
    var t := s[start..];
    EncodeOnce(t);
    if n < |t| {
      assert t[..n] == s[start..start + n];
      assert t[n + 1..] == s[start + n + 1..];
    } else {
      assert t[..n] == t;
    }
  }

  lemma LabelEnds(s: Bytes, start: nat, end: nat)
    requires start <= end <= |s| && (end < |s| ==> s[end] == DOT)
    requires forall i :: start <= i < end ==> s[i] != DOT
    ensures LabelLength(s[start..]) == end - start
  {
    var l := s[start..end];
    assert s[start..] == l + s[end..];
    LabelLengthOf(l, s[end..]);
  }

  // The walker, on any payload: every byte it looks at lies inside the payload.
  method HandleResponse(data: array<Byte>, queryId: Half) returns (result: Option<Word>)
    ensures result == Walk(data[..], queryId)
  {
    hide SkipQuestion, Answers, Left;
    var end := data.Length;
    if end < DNS_HEADER { return None; }
    if data[0] as int * 256 + data[1] as int != queryId { return None; }
    if data[2] < 0x80 { return None; }
    var ancount := data[6] as int * 256 + data[7] as int;
    var ptr := SkipQuestionLoop(data);
    result := AnswerLoop(data, ptr, ancount);
  }

  ghost function Left(d: Bytes, p: nat): Bytes { Drop(d, p) }

  method SkipQuestionLoop(data: array<Byte>) returns (ptr: nat)
    requires data.Length >= DNS_HEADER
    ensures Left(data[..], ptr) == SkipQuestion(data[DNS_HEADER..])
  {
    hide Left, SkipQuestion, Drop;
    var d := data[..];
    LeftFrom(d, DNS_HEADER);
    assert d[DNS_HEADER..] == data[DNS_HEADER..];
    ptr := DNS_HEADER;
    while ptr < data.Length && data[ptr] != 0
      invariant SkipQuestion(Left(d, ptr)) == SkipQuestion(data[DNS_HEADER..])
      decreases data.Length - ptr
    {
      SkipQuestionStep(d, ptr);
      if data[ptr] >= 192 {
        return ptr + 2;
      }
      ptr := ptr + 1 + data[ptr];
    }
    SkipQuestionStep(d, ptr);
    ptr := ptr + 1;
    ptr := ptr + 4;
  }

  // One round of the question loop with the cursor at p.
  lemma SkipQuestionStep(d: Bytes, p: nat)
    ensures SkipQuestion(Left(d, p)) ==
      if p >= |d| || d[p] == 0 then Left(d, p + 5)
      else if d[p] >= 192 then Left(d, p + 2)
      else SkipQuestion(Left(d, p + 1 + d[p]))
  {
    hide SkipQuestion;
    SkipOnce(Left(d, p));
    LeftOf(d, p, 5);
    LeftOf(d, p, 2);
    if p < |d| { LeftOf(d, p, d[p] as nat + 1); }
    hide Left, Drop;
  }

  lemma LeftFrom(d: Bytes, p: nat)
    requires p <= |d|
    ensures Left(d, p) == d[p..]
  {
  }

  lemma LeftOf(d: Bytes, p: nat, n: nat)
    ensures Left(d, p + n) == Drop(Left(d, p), n)
    ensures p < |d| ==> Left(d, p)[0] == d[p]
    ensures p >= |d| ==> Left(d, p) == []
  {
  }

  method SkipNameLoop(data: array<Byte>, start: nat) returns (ptr: nat)
    requires start < data.Length
    ensures Left(data[..], ptr) == SkipName(Left(data[..], start))
  {
    hide Left, SkipQuestion, SkipLabels, Drop;
    var d := data[..];
    ptr := start;
    LeftOf(d, ptr, 2);
    if data[ptr] >= 192 {
      return ptr + 2;
    }
    while ptr < data.Length && data[ptr] != 0
      invariant SkipLabels(Left(d, ptr)) == SkipLabels(Left(d, start))
      decreases data.Length - ptr
    {
      SkipLabelsOnce(Left(d, ptr));
      LeftOf(d, ptr, data[ptr] as nat + 1);
      ptr := ptr + 1 + data[ptr];
    }
    SkipLabelsOnce(Left(d, ptr));
    LeftOf(d, ptr, 1);
    ptr := ptr + 1;
  }

  lemma {:induction false} SkipLabelsOnce(d: Bytes)
    ensures SkipLabels(d) == if d == [] || d[0] == 0 then d else SkipLabels(Drop(d, d[0] as nat + 1))
  {
    hide Drop;
  }

  method AnswerLoop(data: array<Byte>, start: nat, ancount: Half) returns (result: Option<Word>)
    ensures result == Answers(Left(data[..], start), ancount)
  {
    hide Left, Answers;
    var d := data[..];
    var ptr: nat := start;
    var end := data.Length;
    var i := 0;
    while i < ancount && ptr + 12 <= end
      invariant 0 <= i <= ancount
      invariant Answers(Left(d, ptr), ancount - i) == Answers(Left(d, start), ancount)
      decreases ancount - i
    {
      hide SkipName;
      ghost var record := ptr;
      LeftSize(d, record);
      ptr := SkipNameLoop(data, ptr);
      AnswersStep(d, record, ptr, ancount - i);
      if ptr + 10 > end { return None; }
      var rtype := data[ptr] as int * 256 + data[ptr + 1] as int;
      var rdlength := data[ptr + 8] as int * 256 + data[ptr + 9] as int;
      ptr := ptr + 10;
      if rtype == DNS_TYPE_A && rdlength == 4 && ptr + 4 <= end {
        return Some(data[ptr] as int * 0x100_0000 + data[ptr + 1] as int * 0x1_0000
          + data[ptr + 2] as int * 0x100 + data[ptr + 3] as int);
      }
      ptr := ptr + rdlength;
      i := i + 1;
    }
    AnswersEnd(d, ptr, ancount - i);
    return None;
  }

  lemma LeftSize(d: Bytes, p: nat)
    ensures |Left(d, p)| == if p <= |d| then |d| - p else 0
  {
  }

  lemma AnswersEnd(d: Bytes, p: nat, count: nat)
    requires count == 0 || p + 12 > |d|
    ensures Answers(Left(d, p), count) == None
  {
  }

  // One round of the answer loop, for the record at p whose name ends at q.
  lemma AnswersStep(d: Bytes, p: nat, q: nat, count: nat)
    requires count > 0 && p + 12 <= |d|
    requires Left(d, p) != [] && Left(d, q) == SkipName(Left(d, p))
    ensures Answers(Left(d, p), count) ==
      if q + 10 > |d| then None
      else if Word16(d, q) == DNS_TYPE_A && Word16(d, q + 8) == 4 && q + 14 <= |d| then Some(Word32(d, q + 10))
      else Answers(Left(d, q + 10 + Word16(d, q + 8)), count - 1)
  {
    LeftSize(d, p);
    LeftSize(d, q);
    if q + 10 <= |d| {
      LeftOf(d, q, 10 + Word16(d, q + 8));
      WordsLeft(d, q);
    }
    hide SkipName, Left, Word16, Word32;
  }

  lemma WordsLeft(d: Bytes, p: nat)
    requires p + 10 <= |d|
    ensures |Left(d, p)| == |d| - p
    ensures Word16(Left(d, p), 0) == Word16(d, p) && Word16(Left(d, p), 8) == Word16(d, p + 8)
    ensures p + 14 <= |d| ==> Word32(Left(d, p), 10) == Word32(d, p + 10)
  {
  }
}
