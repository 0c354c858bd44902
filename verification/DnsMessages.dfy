/** DNS messages as the standalone server reads and answers them (RFC 1035, sections 3.1 and 4.1). */
module DnsMessages {
  import opened Bytes
  import opened Text

  /** Labels in order of appearance, and the offset at which reading stopped. */
  datatype Parsed = Parsed(labels: seq<string>, end: nat)

  /** Both top bits set: a compression pointer (section 4.1.4). */
  predicate IsPointer(length: byte) {
    length >= 0xC0
  }

  function Label(data: seq<byte>, at: nat, length: nat): string {
    DecodeAscii(Slice(data, at + 1, at + 1 + length))
  }

  /** The labels from `curr` on; a pointer ends the name and is not followed. */
  function ReadName(data: seq<byte>, curr: nat): Parsed
    decreases |data| - curr
  {
    if curr >= |data| then Parsed([], curr)
    else if data[curr] == 0 then Parsed([], curr + 1)
    else if IsPointer(data[curr]) then Parsed([], curr + 2)
    else
      var rest := ReadName(data, curr + 1 + data[curr]);
      Parsed([Label(data, curr, data[curr])] + rest.labels, rest.end)
  }

  /** A label stands at this offset. */
  predicate AtLabel(data: seq<byte>, curr: nat) {
    curr < |data| && data[curr] != 0 && !IsPointer(data[curr])
  }

  lemma ReadNameStep(data: seq<byte>, curr: nat)
    ensures !AtLabel(data, curr) ==> ReadName(data, curr).labels == []
    ensures curr >= |data| ==> ReadName(data, curr).end == curr
    ensures curr < |data| && data[curr] == 0 ==> ReadName(data, curr).end == curr + 1
    ensures curr < |data| && IsPointer(data[curr]) ==> ReadName(data, curr).end == curr + 2
    ensures AtLabel(data, curr) ==>
              var rest := ReadName(data, curr + 1 + data[curr]);
              ReadName(data, curr) == Parsed([Label(data, curr, data[curr])] + rest.labels, rest.end)
  {
    hide Label;
  }

  /** These labels have been read when the cursor stands here. */
  ghost predicate ReadSoFar(data: seq<byte>, offset: nat, labels: seq<string>, curr: nat) {
    && labels + ReadName(data, curr).labels == ReadName(data, offset).labels
    && ReadName(data, curr).end == ReadName(data, offset).end
  }

  lemma NothingRead(data: seq<byte>, offset: nat)
    ensures ReadSoFar(data, offset, [], offset)
  {
    hide ReadName;
  }

  lemma OneMoreRead(data: seq<byte>, offset: nat, labels: seq<string>, curr: nat)
    requires ReadSoFar(data, offset, labels, curr) && AtLabel(data, curr)
    ensures ReadSoFar(data, offset, labels + [Label(data, curr, data[curr])], curr + 1 + data[curr])
  {
    hide ReadName, Label;
    ReadNameStep(data, curr);
  }

  lemma AllRead(data: seq<byte>, offset: nat, labels: seq<string>, curr: nat)
    requires ReadSoFar(data, offset, labels, curr) && !AtLabel(data, curr)
    ensures ReadName(data, offset) == Parsed(labels, ReadName(data, curr).end)
  {
    hide ReadName;
    ReadNameStep(data, curr);
    assert labels + [] == labels;
  }

  function DomainName(labels: seq<string>): string {
    Lower(Join(labels, "."))
  }

  /** A domain name has no upper-case letter. */
  lemma NamesAreLower(labels: seq<string>)
    ensures NoUpper(DomainName(labels))
  {
  }

  /** One label names itself, character by character in lower case. */
  lemma NameOfOneLabel(word: string)
    ensures var name := DomainName([word]);
            && |name| == |word|
            && forall i :: 0 <= i < |name| ==>
                 var c := word[i];
                 name[i] == if 'A' <= c <= 'Z' then c - 'A' + 'a' else c
  {
  }

  /** More labels name what their parts name, with a dot in between. */
  lemma NameOfLabels(a: seq<string>, b: seq<string>)
    requires a != [] && b != []
    ensures DomainName(a + b) == DomainName(a) + "." + DomainName(b)
    ensures DomainName([]) == ""
  {
    hide Lower, Join;
    JoinConcat(a, b, ".");
    LowerConcat(Join(a, "."), ".");
    LowerConcat(Join(a, ".") + ".", Join(b, "."));
    assert Lower(".") == ".";
    NoName();
  }

  lemma NoName()
    ensures DomainName([]) == ""
  {
  }

  method ParseDomainName(data: seq<byte>, offset: nat) returns (domain: string, end: nat)
    ensures domain == DomainName(ReadName(data, offset).labels)
    ensures NoUpper(domain)
    ensures end == ReadName(data, offset).end
  {
    hide Label, DomainName, ReadName, NoUpper, ReadSoFar;
    NamesAreLower(ReadName(data, offset).labels);
    var labels: seq<string> := [];
    var curr := offset;
    NothingRead(data, offset);
    while curr < |data|
      invariant ReadSoFar(data, offset, labels, curr)
      decreases |data| - curr
    {
      var length := data[curr];
      ReadNameStep(data, curr);
      if length == 0 {
        AllRead(data, offset, labels, curr);
        curr := curr + 1;
        return DomainName(labels), curr;
      }
      if IsPointer(length) {
        AllRead(data, offset, labels, curr);
        curr := curr + 2;
        return DomainName(labels), curr;
      }
      OneMoreRead(data, offset, labels, curr);
      labels := labels + [Label(data, curr, length)];
      curr := curr + 1 + length;
    }
    ReadNameStep(data, curr);
    AllRead(data, offset, labels, curr);
    return DomainName(labels), curr;
  }

  const HEADER_LENGTH: nat := 12
  const ANSWER_LENGTH: nat := 16
  const SERVER_TTL: byte := 0x1e
  const MAGIC_TTL: byte := 0x3c

  type Ipv4 = a: nat | a < 0x1_0000_0000

  function ResponseHeader(query: seq<byte>, flags: byte, answers: byte): (r: seq<byte>)
    requires |query| >= HEADER_LENGTH
    ensures |r| == HEADER_LENGTH
  {
    query[..2] + [0x81, flags] + query[4..6] + [0, answers, 0, 0, 0, 0]
  }

  /** Name pointer to offset 12, type A, class IN, TTL, four bytes of address. */
  function Answer(ttl: byte, ip: Ipv4): (r: seq<byte>)
    ensures |r| == ANSWER_LENGTH
  {
    [0xC0, 0x0C, 0, 1, 0, 1, 0, 0, 0, ttl, 0, 4] + Put32(ip)
  }

  function BuildAResponse(query: seq<byte>, ip: Ipv4): seq<byte> {
    if |query| < HEADER_LENGTH then []
    else
      var end := ReadName(query, HEADER_LENGTH).end;
      EndIsAfter(query, HEADER_LENGTH);
      ResponseHeader(query, 0x80, 1) + Slice(query, HEADER_LENGTH, end + 4) + Answer(SERVER_TTL, ip)
  }

  // ----- Where reading stops

  lemma {:induction false} EndIsAfter(data: seq<byte>, curr: nat)
    ensures curr <= ReadName(data, curr).end
    ensures curr < |data| ==> curr < ReadName(data, curr).end
    decreases |data| - curr
  {
    hide ReadName, Label;
    ReadNameStep(data, curr);
    if AtLabel(data, curr) {
      EndIsAfter(data, curr + 1 + data[curr]);
    }
  }

  /** On any bytes, reading from inside the buffer advances and stops at most 191 past its end. */
  lemma {:induction false} EndIsBounded(data: seq<byte>, curr: nat)
    requires curr < |data|
    ensures curr < ReadName(data, curr).end <= |data| + 191
    decreases |data| - curr
  {
    hide ReadName, Label;
    ReadNameStep(data, curr);
    if AtLabel(data, curr) {
      var next := curr + 1 + data[curr];
      ReadNameStep(data, next);
      if next < |data| {
        EndIsBounded(data, next);
      }
    }
  }

  lemma LabelIsLocal(a: seq<byte>, b: seq<byte>, at: nat, length: nat)
    requires at + 1 + length <= |a| && at + 1 + length <= |b|
    requires forall i :: at < i < at + 1 + length ==> a[i] == b[i]
    ensures Label(a, at, length) == Label(b, at, length)
  {
    assert a[at + 1..at + 1 + length] == b[at + 1..at + 1 + length];
  }

  /** A name that ends inside the buffer depends on the bytes from its start to its end only. */
  lemma {:induction false} ReadNameIsLocal(a: seq<byte>, b: seq<byte>, curr: nat)
    requires ReadName(a, curr).end < |a| && ReadName(a, curr).end <= |b|
    requires forall i :: curr <= i < ReadName(a, curr).end ==> a[i] == b[i]
    ensures ReadName(b, curr) == ReadName(a, curr)
    decreases |a| - curr
  {
    hide ReadName, Label;
    EndIsAfter(a, curr);
    ReadNameStep(a, curr);
    ReadNameStep(b, curr);
    if AtLabel(a, curr) {
      var next := curr + 1 + a[curr];
      EndIsAfter(a, next);
      ReadNameIsLocal(a, b, next);
      LabelIsLocal(a, b, curr, a[curr]);
    }
  }

  // ----- Names round trip

  predicate ValidLabel(l: string) {
    1 <= |l| <= 63 && IsAscii(l)
  }

  predicate ValidLabels(labels: seq<string>) {
    forall l :: l in labels ==> ValidLabel(l)
  }

  /** Section 3.1: each label behind its length, then the root. */
  function EncodeName(labels: seq<string>): (r: seq<byte>)
    requires ValidLabels(labels)
    ensures |r| >= 1
  {
    if labels == [] then [0]
    else
      assert ValidLabel(labels[0]);
      [|labels[0]|] + EncodeAscii(labels[0]) + EncodeName(labels[1..])
  }

  lemma LabelRoundTrip(pre: seq<byte>, l: string, rest: seq<byte>)
    requires ValidLabel(l)
    ensures var data := pre + ([|l|] + EncodeAscii(l) + rest);
            data[|pre|] == |l| && Label(data, |pre|, |l|) == l
  {
    var data := pre + ([|l|] + EncodeAscii(l) + rest);
    assert data[|pre| + 1..|pre| + 1 + |l|] == EncodeAscii(l);
    DecodeInvertsEncode(l);
  }

  lemma RootName()
    ensures EncodeName([]) == [0]
  {
  }

  lemma NameStep(labels: seq<string>) returns (first: seq<byte>)
    requires ValidLabels(labels) && labels != []
    ensures ValidLabel(labels[0]) && ValidLabels(labels[1..])
    ensures first == [|labels[0]|] + EncodeAscii(labels[0]) && |first| == 1 + |labels[0]|
    ensures EncodeName(labels) == first + EncodeName(labels[1..])
  {
    assert ValidLabel(labels[0]);
    first := [|labels[0]|] + EncodeAscii(labels[0]);
  }

  /** Any ASCII labels of 1 to 63 characters, encoded anywhere in a buffer, are read back. */
  lemma {:induction false} NameRoundTrip(pre: seq<byte>, labels: seq<string>, post: seq<byte>)
    requires ValidLabels(labels)
    ensures ReadName(pre + EncodeName(labels) + post, |pre|) == Parsed(labels, |pre| + |EncodeName(labels)|)
    decreases |labels|
  {
    hide ReadName, Label, EncodeName;
    var data := pre + EncodeName(labels) + post;
    ReadNameStep(data, |pre|);
    if labels == [] {
      RootName();
      assert data[|pre|] == EncodeName(labels)[0];
    } else {
      var first := NameStep(labels);
      var rest := EncodeName(labels[1..]) + post;
      assert data == pre + (first + rest);
      LabelRoundTrip(pre, labels[0], rest);
      NameRoundTrip(pre + first, labels[1..], post);
      assert data == pre + first + EncodeName(labels[1..]) + post;
      assert labels == [labels[0]] + labels[1..];
    }
  }

  lemma LongLabelRoundTrip(pre: seq<byte>, text: string, rest: seq<byte>)
    requires 1 <= |text| <= 255 && IsAscii(text)
    ensures var data := pre + ([|text|] + EncodeAscii(text) + rest);
            data[|pre|] == |text| && Label(data, |pre|, |text|) == text
  {
    var data := pre + ([|text|] + EncodeAscii(text) + rest);
    assert data[|pre| + 1..|pre| + 1 + |text|] == EncodeAscii(text);
    DecodeInvertsEncode(text);
  }

  /** Every byte from 1 to 191 is the length of a label, also those that section 3.1 does not allow. */
  lemma LengthsBelowPointers(pre: seq<byte>, text: string, rest: seq<byte>)
    requires 1 <= |text| <= 191 && IsAscii(text)
    ensures var data := pre + ([|text|] + EncodeAscii(text) + rest);
            var next := ReadName(data, |pre| + 1 + |text|);
            ReadName(data, |pre|) == Parsed([text] + next.labels, next.end)
  {
    hide Label, ReadName;
    LongLabelRoundTrip(pre, text, rest);
    ReadNameStep(pre + ([|text|] + EncodeAscii(text) + rest), |pre|);
  }

  /** The labels alone, without an end. */
  function EncodeLabels(labels: seq<string>): seq<byte>
    requires ValidLabels(labels)
  {
    if labels == [] then []
    else
      assert ValidLabel(labels[0]);
      [|labels[0]|] + EncodeAscii(labels[0]) + EncodeLabels(labels[1..])
  }

  lemma LabelsStep(labels: seq<string>) returns (first: seq<byte>)
    requires ValidLabels(labels) && labels != []
    ensures ValidLabel(labels[0]) && ValidLabels(labels[1..])
    ensures first == [|labels[0]|] + EncodeAscii(labels[0]) && |first| == 1 + |labels[0]|
    ensures EncodeLabels(labels) == first + EncodeLabels(labels[1..])
  {
    assert ValidLabel(labels[0]);
    first := [|labels[0]|] + EncodeAscii(labels[0]);
  }

  lemma NoLabels()
    ensures EncodeLabels([]) == []
  {
  }

  /** A name that ends in a compression pointer is read up to it, and ends behind its two bytes. */
  lemma {:induction false} PointerEndsName(pre: seq<byte>, labels: seq<string>, high: byte, low: byte, post: seq<byte>)
    requires ValidLabels(labels) && high >= 0xC0
    ensures ReadName(pre + EncodeLabels(labels) + [high, low] + post, |pre|) ==
            Parsed(labels, |pre| + |EncodeLabels(labels)| + 2)
    decreases |labels|
  {
    hide ReadName, Label, EncodeLabels;
    var data := pre + EncodeLabels(labels) + [high, low] + post;
    ReadNameStep(data, |pre|);
    if labels == [] {
      NoLabels();
      assert data[|pre|] == high;
    } else {
      var first := LabelsStep(labels);
      var rest := EncodeLabels(labels[1..]) + [high, low] + post;
      assert data == pre + (first + rest);
      LabelRoundTrip(pre, labels[0], rest);
      PointerEndsName(pre + first, labels[1..], high, low, post);
      assert data == pre + first + EncodeLabels(labels[1..]) + [high, low] + post;
      assert labels == [labels[0]] + labels[1..];
    }
  }

  // ----- Responses

  /** The question is complete: its type and class are in the query. */
  predicate CompleteQuestion(query: seq<byte>) {
    |query| >= HEADER_LENGTH && ReadName(query, HEADER_LENGTH).end + 4 <= |query|
  }

  /** The offset a compression pointer designates. */
  function PointerTarget(high: byte, low: byte): nat {
    256 * (high % 0x40) + low
  }

  /** For a complete question the response repeats the name at the same place with its type and
      class, and the answer's pointer designates that name and carries the address. */
  lemma ResponseIsConsistent(query: seq<byte>, ip: Ipv4)
    requires CompleteQuestion(query)
    ensures var r := BuildAResponse(query, ip);
            var end := ReadName(query, HEADER_LENGTH).end;
            && ReadName(r, HEADER_LENGTH) == ReadName(query, HEADER_LENGTH)
            && |r| == end + 4 + ANSWER_LENGTH
            && r[..2] == query[..2] && r[4..6] == query[4..6] && r[12..end + 4] == query[12..end + 4]
            && IsPointer(r[end + 4]) && PointerTarget(r[end + 4], r[end + 5]) == HEADER_LENGTH
            && ReadName(r, PointerTarget(r[end + 4], r[end + 5])).labels == ReadName(query, HEADER_LENGTH).labels
            && r[2] == 0x81 && r[3] == 0x80
            && Get16(r[6], r[7]) == 1 && Get16(r[8], r[9]) == 0 && Get16(r[10], r[11]) == 0
            && Get16(r[end + 6], r[end + 7]) == 1 && Get16(r[end + 8], r[end + 9]) == 1
            && Get32(r[end + 10..end + 14]) == 30 && Get16(r[end + 14], r[end + 15]) == 4
            && Get32(r[end + 16..]) == ip
  {
    hide BuildAResponse, ResponseHeader, Answer, ReadName, QuestionEnd, Put32;
    EndIsAfter(query, HEADER_LENGTH);
    QuestionIsComplete(query);
    ResponseLayout(query, ip);
    ResponseFields(BuildAResponse(query, ip), ReadName(query, HEADER_LENGTH).end);
    ReadAgain(query, BuildAResponse(query, ip), ReadName(query, HEADER_LENGTH).end);
  }

  // The header and answer bytes one by one.
  lemma ResponseFields(r: seq<byte>, end: nat)
    requires HEADER_LENGTH <= end && |r| == end + 4 + ANSWER_LENGTH
    requires r[2..4] == [0x81, 0x80] && r[6..12] == [0, 1, 0, 0, 0, 0]
    requires r[end + 4..end + 16] == [0xC0, 0x0C, 0, 1, 0, 1, 0, 0, 0, 0x1e, 0, 4]
    ensures r[2] == 0x81 && r[3] == 0x80
    ensures Get16(r[6], r[7]) == 1 && Get16(r[8], r[9]) == 0 && Get16(r[10], r[11]) == 0
    ensures r[end + 4] == 0xC0 && r[end + 5] == 0x0C
    ensures Get16(r[end + 6], r[end + 7]) == 1 && Get16(r[end + 8], r[end + 9]) == 1
    ensures Get32(r[end + 10..end + 14]) == 30 && Get16(r[end + 14], r[end + 15]) == 4
  {
    var h, a := r[6..12], r[end + 4..end + 16];
    assert r[2..4][0] == r[2] && r[2..4][1] == r[3];
    assert h[0] == r[6] && h[1] == r[7] && h[2] == r[8] && h[3] == r[9] && h[4] == r[10] && h[5] == r[11];
    assert a[0] == r[end + 4] && a[1] == r[end + 5] && a[2] == r[end + 6] && a[3] == r[end + 7];
    assert a[4] == r[end + 8] && a[5] == r[end + 9] && a[10] == r[end + 14] && a[11] == r[end + 15];
    var ttl := r[end + 10..end + 14];
    assert ttl[0] == a[6] && ttl[1] == a[7] && ttl[2] == a[8] && ttl[3] == a[9];
  }

  lemma ReadAgain(a: seq<byte>, b: seq<byte>, end: nat)
    requires ReadName(a, HEADER_LENGTH).end == end < |a| && HEADER_LENGTH <= end && end + 4 <= |a| && end + 4 <= |b|
    requires a[HEADER_LENGTH..end + 4] == b[HEADER_LENGTH..end + 4]
    ensures ReadName(b, HEADER_LENGTH) == ReadName(a, HEADER_LENGTH)
  {
    hide ReadName;
    forall i | HEADER_LENGTH <= i < end ensures a[i] == b[i] {
      assert a[HEADER_LENGTH..end + 4][i - HEADER_LENGTH] == b[HEADER_LENGTH..end + 4][i - HEADER_LENGTH];
    }
    ReadNameIsLocal(a, b, HEADER_LENGTH);
  }

  /** Where the echoed part of a query ends: behind type and class, or with the query. */
  function QuestionEnd(query: seq<byte>): (q: nat)
    requires |query| >= HEADER_LENGTH
    ensures HEADER_LENGTH <= q <= |query|
  {
    EndIsAfter(query, HEADER_LENGTH);
    var end := ReadName(query, HEADER_LENGTH).end;
    if end + 4 <= |query| then end + 4 else |query|
  }

  lemma QuestionIsComplete(query: seq<byte>)
    requires CompleteQuestion(query)
    ensures QuestionEnd(query) == ReadName(query, HEADER_LENGTH).end + 4
  {
    hide ReadName;
  }

  lemma HeaderFields(query: seq<byte>, flags: byte, answers: byte)
    requires |query| >= HEADER_LENGTH
    ensures var h := ResponseHeader(query, flags, answers);
            && h[..2] == query[..2] && h[2..4] == [0x81, flags] && h[4..6] == query[4..6]
            && h[6..12] == [0, answers, 0, 0, 0, 0]
  {
  }

  lemma AnswerFields(ttl: byte, ip: Ipv4)
    ensures Answer(ttl, ip)[..12] == [0xC0, 0x0C, 0, 1, 0, 1, 0, 0, 0, ttl, 0, 4]
    ensures Answer(ttl, ip)[12..] == Put32(ip)
  {
    hide Put32;
  }

  lemma AnswerBehind(front: seq<byte>, a: seq<byte>)
    requires |a| == ANSWER_LENGTH
    ensures var r, q := front + a, |front|;
            |r| == q + 16 && r[q..q + 12] == a[..12] && r[q + 12..] == a[12..]
  {
  }

  lemma QuestionEndIs(query: seq<byte>)
    requires |query| >= HEADER_LENGTH
    ensures var end := ReadName(query, HEADER_LENGTH).end;
            HEADER_LENGTH <= end && QuestionEnd(query) == if end + 4 <= |query| then end + 4 else |query|
  {
    hide ReadName;
    EndIsAfter(query, HEADER_LENGTH);
  }

  lemma EchoedPart(query: seq<byte>, hi: nat, q: nat)
    requires HEADER_LENGTH <= |query| && q == QuestionEnd(query)
    requires hi == ReadName(query, HEADER_LENGTH).end + 4
    ensures HEADER_LENGTH <= hi && Slice(query, HEADER_LENGTH, hi) == query[HEADER_LENGTH..q]
  {
    hide ReadName, QuestionEnd, Slice;
    QuestionEndIs(query);
    SliceEnds(query, HEADER_LENGTH, hi, q);
  }

  lemma HeaderThenQuestion(h: seq<byte>, question: seq<byte>)
    requires |h| == 12
    ensures var front := h + question;
            && front[..2] == h[..2] && front[2..4] == h[2..4] && front[4..6] == h[4..6] && front[6..12] == h[6..12]
            && front[12..] == question
  {
  }

  lemma BehindTheFront(front: seq<byte>, a: seq<byte>)
    requires |front| >= 12
    ensures var r := front + a;
            && r[..2] == front[..2] && r[2..4] == front[2..4] && r[4..6] == front[4..6] && r[6..12] == front[6..12]
            && r[12..|front|] == front[12..]
  {
  }

  /** Whatever the query, cut off or not: without a whole header there is no response; otherwise the
      response repeats its id, its question count and its bytes up to the end of the first question, and
      the answer follows. */
  lemma ResponseLayout(query: seq<byte>, ip: Ipv4)
    ensures |query| < 12 ==> BuildAResponse(query, ip) == []
    ensures |query| >= 12 ==>
              var r, q := BuildAResponse(query, ip), QuestionEnd(query);
              && |r| == q + 16
              && r[..2] == query[..2] && r[2..4] == [0x81, 0x80] && r[4..6] == query[4..6]
              && r[6..12] == [0, 1, 0, 0, 0, 0]
              && r[12..q] == query[12..q]
              && r[q..q + 12] == [0xC0, 0x0C, 0, 1, 0, 1, 0, 0, 0, 0x1e, 0, 4]
              && r[q + 12..] == Put32(ip)
  {
    hide ReadName, Put32, ResponseHeader, Answer, QuestionEnd, Slice;
    if |query| >= 12 {
      var q, h, a := QuestionEnd(query), ResponseHeader(query, 0x80, 1), Answer(SERVER_TTL, ip);
      EchoedPart(query, ReadName(query, HEADER_LENGTH).end + 4, q);
      HeaderFields(query, 0x80, 1);
      AnswerFields(SERVER_TTL, ip);
      HeaderThenQuestion(h, query[12..q]);
      BehindTheFront(h + query[12..q], a);
      AnswerBehind(h + query[12..q], a);
    }
  }
}
