/** The second DNS responder, and the record table its server and its protocol object share. */
module MagicDns {
  import opened Bytes
  import opened DnsMessages
  import opened Networks
  import opened Outcomes
  import opened Text

  /** The labels from `curr` on, as this parser reads them: every byte but 0 is a length. */
  function ReadRawName(data: seq<byte>, curr: nat): Parsed
    decreases |data| - curr
  {
    if curr >= |data| then Parsed([], curr)
    else if data[curr] == 0 then Parsed([], curr + 1)
    else
      var rest := ReadRawName(data, curr + 1 + data[curr]);
      Parsed([Label(data, curr, data[curr])] + rest.labels, rest.end)
  }

  lemma {:induction false} RawEndIsAfter(data: seq<byte>, curr: nat)
    ensures curr <= ReadRawName(data, curr).end
    decreases |data| - curr
  {
    hide Label;
    if curr < |data| && data[curr] != 0 {
      RawEndIsAfter(data, curr + 1 + data[curr]);
    }
  }

  function FirstOr(labels: seq<string>): string {
    if labels == [] then "" else labels[0]
  }

  /** The full name in lower case, or else the first label as written. */
  function LookUp(table: map<string, Ipv4>, labels: seq<string>): Option<Ipv4> {
    if DomainName(labels) in table then Some(table[DomainName(labels)])
    else if FirstOr(labels) in table then Some(table[FirstOr(labels)])
    else None
  }

  function MagicResponse(table: map<string, Ipv4>, query: seq<byte>): seq<byte> {
    if |query| < HEADER_LENGTH then []
    else
      var name := ReadRawName(query, HEADER_LENGTH);
      RawEndIsAfter(query, HEADER_LENGTH);
      var question := Slice(query, HEADER_LENGTH, name.end + 4);
      match LookUp(table, name.labels)
      case None => ResponseHeader(query, 0x83, 0) + question
      case Some(ip) => ResponseHeader(query, 0x80, 1) + question + Answer(MAGIC_TTL, ip)
  }

  class RecordTable {
    var entries: map<string, Ipv4>

    constructor ()
      ensures entries == map[]
    {
      entries := map[];
    }
  }

  class MagicDNSProtocol {
    const records: RecordTable

    constructor (records: RecordTable)
      ensures this.records == records
    {
      this.records := records;
    }

    method BuildDnsResponse(query: seq<byte>) returns (r: seq<byte>)
      ensures r == MagicResponse(records.entries, query)
    {
      hide Label, DomainName, LookUp, ResponseHeader, Answer, Slice;
      if |query| < HEADER_LENGTH {
        return [];
      }
      var offset := HEADER_LENGTH;
      var labels: seq<string> := [];
      while offset < |query|
        invariant HEADER_LENGTH <= offset
        invariant labels + ReadRawName(query, offset).labels == ReadRawName(query, HEADER_LENGTH).labels
        invariant ReadRawName(query, offset).end == ReadRawName(query, HEADER_LENGTH).end
        decreases |query| - offset
      {
        var length := query[offset];
        if length == 0 {
          break;
        }
        labels := labels + [Label(query, offset, length)];
        offset := offset + 1 + length;
      }
      assert labels + [] == labels;
      if offset < |query| {
        offset := offset + 1;
      }
      var question := Slice(query, HEADER_LENGTH, offset + 4);
      var ip := LookUp(records.entries, labels);
      if ip.None? {
        return ResponseHeader(query, 0x83, 0) + question;
      }
      return ResponseHeader(query, 0x80, 1) + question + Answer(MAGIC_TTL, ip.value);
    }
  }

  /** This parser knows no pointers: a byte of any value from 1 to 255 is the length of a label. */
  lemma AnyByteIsALength(pre: seq<byte>, text: string, rest: seq<byte>)
    requires 1 <= |text| <= 255 && IsAscii(text)
    ensures var data := pre + ([|text|] + EncodeAscii(text) + rest);
            var next := ReadRawName(data, |pre| + 1 + |text|);
            ReadRawName(data, |pre|) == Parsed([text] + next.labels, next.end)
  {
    hide Label, ReadRawName;
    LongLabelRoundTrip(pre, text, rest);
    var data := pre + ([|text|] + EncodeAscii(text) + rest);
    RawStep(data, |pre|);
  }

  lemma RawStep(data: seq<byte>, curr: nat)
    requires curr < |data| && data[curr] != 0
    ensures var next := ReadRawName(data, curr + 1 + data[curr]);
            ReadRawName(data, curr) == Parsed([Label(data, curr, data[curr])] + next.labels, next.end)
  {
    hide Label;
  }

  // ----- Agreement of the two responders

  /** No length byte met while reading is a compression pointer. */
  predicate NoPointer(data: seq<byte>, curr: nat)
    decreases |data| - curr
  {
    curr >= |data| || data[curr] == 0 || (!IsPointer(data[curr]) && NoPointer(data, curr + 1 + data[curr]))
  }

  /** The two name parsers agree on a text exactly when it has no compression pointer. */
  lemma {:induction false} ParsersAgreeIff(data: seq<byte>, curr: nat)
    ensures ReadRawName(data, curr).end == ReadName(data, curr).end <==> NoPointer(data, curr)
    ensures NoPointer(data, curr) ==> ReadRawName(data, curr) == ReadName(data, curr)
    decreases |data| - curr
  {
    hide Label;
    if curr < |data| && data[curr] != 0 {
      var next := curr + 1 + data[curr];
      if IsPointer(data[curr]) {
        RawEndIsAfter(data, next);
      } else {
        ParsersAgreeIff(data, next);
      }
    }
  }

  /** On a complete question without pointers whose name is in the table, the two responses differ in
      one byte, the low byte of the time to live. */
  lemma RespondersAgree(table: map<string, Ipv4>, query: seq<byte>)
    requires CompleteQuestion(query) && NoPointer(query, HEADER_LENGTH)
    requires DomainName(ReadName(query, HEADER_LENGTH).labels) in table
    ensures var ip := table[DomainName(ReadName(query, HEADER_LENGTH).labels)];
            var at := ReadName(query, HEADER_LENGTH).end + 13;
            var r := BuildAResponse(query, ip);
            && at < |r| && r[at] == 30
            && MagicResponse(table, query) == r[at := 60]
  {
    hide ReadName, ReadRawName, NoPointer, DomainName, ResponseHeader, Put32;
    ParsersAgreeIff(query, HEADER_LENGTH);
    EndIsAfter(query, HEADER_LENGTH);
    var end := ReadName(query, HEADER_LENGTH).end;
    var ip := table[DomainName(ReadName(query, HEADER_LENGTH).labels)];
    var front := ResponseHeader(query, 0x80, 1) + query[HEADER_LENGTH..end + 4];
    assert BuildAResponse(query, ip) == front + Answer(SERVER_TTL, ip);
    assert MagicResponse(table, query) == front + Answer(MAGIC_TTL, ip);
    assert Answer(SERVER_TTL, ip)[9 := MAGIC_TTL] == Answer(MAGIC_TTL, ip);
    assert |front| == end + 4;
  }

  /** Where the echoed part of a query ends for this parser. */
  function RawQuestionEnd(query: seq<byte>): (q: nat)
    requires |query| >= HEADER_LENGTH
    ensures HEADER_LENGTH <= q <= |query|
  {
    RawEndIsAfter(query, HEADER_LENGTH);
    var end := ReadRawName(query, HEADER_LENGTH).end;
    if end + 4 <= |query| then end + 4 else |query|
  }

  /** Any query, cut off or not: which name is answered is the full one in lower case if the table has
      it, else the first label as it is written, and else none. A refusal is code 3, without an answer;
      both repeat the question. Without a whole header there is no response. */
  lemma AnsweredOrRefused(table: map<string, Ipv4>, query: seq<byte>)
    ensures |query| < 12 ==> MagicResponse(table, query) == []
    ensures |query| >= 12 ==>
            var r, q, labels := MagicResponse(table, query), RawQuestionEnd(query), ReadRawName(query, 12).labels;
            var full, short := DomainName(labels), if labels == [] then "" else labels[0];
            var answered := full in table || short in table;
            && |r| == q + (if answered then 16 else 0)
            && r[..2] == query[..2] && r[4..6] == query[4..6] && r[12..q] == query[12..q]
            && r[2..4] == [0x81, if answered then 0x80 else 0x83]
            && r[6..12] == [0, if answered then 1 else 0, 0, 0, 0, 0]
            && (answered ==>
                  && r[q..q + 12] == [0xC0, 0x0C, 0, 1, 0, 1, 0, 0, 0, 60, 0, 4]
                  && Get32(r[q + 12..]) == if full in table then table[full] else table[short])
  {
    hide ReadRawName, DomainName, Put32, Get32, ResponseHeader, Answer, Slice, RawQuestionEnd;
    if |query| >= 12 {
      var q, ip := RawQuestionEnd(query), LookUp(table, ReadRawName(query, 12).labels);
      RawEchoedPart(query, ReadRawName(query, HEADER_LENGTH).end + 4, q);
      HeaderFields(query, 0x83, 0);
      HeaderFields(query, 0x80, 1);
      HeaderThenQuestion(ResponseHeader(query, 0x83, 0), query[12..q]);
      HeaderThenQuestion(ResponseHeader(query, 0x80, 1), query[12..q]);
      if ip.Some? {
        var front, a := ResponseHeader(query, 0x80, 1) + query[12..q], Answer(MAGIC_TTL, ip.value);
        AnswerFields(MAGIC_TTL, ip.value);
        BehindTheFront(front, a);
        AnswerBehind(front, a);
      }
    }
  }

  lemma RawQuestionEndIs(query: seq<byte>)
    requires |query| >= HEADER_LENGTH
    ensures var end := ReadRawName(query, HEADER_LENGTH).end;
            HEADER_LENGTH <= end && RawQuestionEnd(query) == if end + 4 <= |query| then end + 4 else |query|
  {
    hide ReadRawName;
    RawEndIsAfter(query, HEADER_LENGTH);
  }

  lemma RawEchoedPart(query: seq<byte>, hi: nat, q: nat)
    requires HEADER_LENGTH <= |query| && q == RawQuestionEnd(query)
    requires hi == ReadRawName(query, HEADER_LENGTH).end + 4
    ensures HEADER_LENGTH <= hi && Slice(query, HEADER_LENGTH, hi) == query[HEADER_LENGTH..q]
  {
    hide ReadRawName, RawQuestionEnd, Slice;
    RawQuestionEndIs(query);
    SliceEnds(query, HEADER_LENGTH, hi, q);
  }

  // ----- The shared table

  datatype NameRecord = NameRecord(name: string, ip: Ipv4)

  datatype Write = Write(key: string, value: Ipv4)

  const DEFAULT_TLDS := ["mesh", "cr"]

  function Chosen(tlds: seq<string>): seq<string> {
    if tlds == [] then DEFAULT_TLDS else tlds
  }

  predicate IsController(r: NameRecord) {
    Lower(r.name) == "controller" || EndsInDotOne(r.ip)
  }

  /** What one record writes for the first `k` TLDs. */
  function TldWrites(r: NameRecord, tlds: seq<string>, k: nat): seq<Write>
    requires k <= |tlds|
  {
    if k == 0 then []
    else
      var tld := CleanTld(tlds[k - 1]);
      TldWrites(r, tlds, k - 1) + [Write(Lower(r.name) + "." + tld, r.ip)]
      + if IsController(r) then [Write("registry." + tld, r.ip)] else []
  }

  function RecordWrites(r: NameRecord, tlds: seq<string>): seq<Write> {
    [Write(Lower(r.name), r.ip)] + TldWrites(r, tlds, |tlds|)
  }

  function AllWrites(records: seq<NameRecord>, tlds: seq<string>): seq<Write> {
    if records == [] then []
    else AllWrites(records[..|records| - 1], tlds) + RecordWrites(records[|records| - 1], tlds)
  }

  function Applied(table: map<string, Ipv4>, writes: seq<Write>): map<string, Ipv4> {
    if writes == [] then table
    else Applied(table, writes[..|writes| - 1])[writes[|writes| - 1].key := writes[|writes| - 1].value]
  }

  function TableFor(records: seq<NameRecord>, tlds: seq<string>): map<string, Ipv4> {
    Applied(map[], AllWrites(records, Chosen(tlds)))
  }

  class MagicDNSServer {
    const records: RecordTable

    constructor ()
      ensures fresh(records) && records.entries == map[]
    {
      records := new RecordTable();
    }

    /** The protocol object is handed the server's own table. */
    method NewProtocol() returns (p: MagicDNSProtocol)
      ensures fresh(p) && p.records == records
    {
      p := new MagicDNSProtocol(records);
    }

    /** Clears the table and fills it again, in place. */
    method UpdateRecords(newRecords: seq<NameRecord>, activeTlds: seq<string>)
      modifies records
      ensures records.entries == TableFor(newRecords, activeTlds)
    {
      hide Applied, TldWrites, AllWrites, RecordWrites, IsController;
      records.entries := map[];
      var tlds := Chosen(activeTlds);
      NoRecords(tlds);
      for i := 0 to |newRecords|
        invariant records.entries == Applied(map[], AllWrites(newRecords[..i], tlds))
      {
        var r := newRecords[i];
        ghost var before := AllWrites(newRecords[..i], tlds);
        WriteName(before, r, tlds);
        var key := Lower(r.name);
        records.entries := records.entries[key := r.ip];
        for k := 0 to |tlds|
          invariant records.entries == Applied(map[], before + ([Write(key, r.ip)] + TldWrites(r, tlds, k)))
        {
          WriteTld(records.entries, before, r, tlds, k);
          var tld := CleanTld(tlds[k]);
          records.entries := records.entries[key + "." + tld := r.ip];
          if IsController(r) {
            records.entries := records.entries["registry." + tld := r.ip];
          }
        }
        RecordDone(newRecords, tlds, i);
      }
      assert newRecords[..|newRecords|] == newRecords;
    }
  }

  lemma NoRecords(tlds: seq<string>)
    ensures Applied(map[], AllWrites([], tlds)) == map[]
  {
  }

  lemma WriteName(before: seq<Write>, r: NameRecord, tlds: seq<string>)
    ensures Applied(map[], before + ([Write(Lower(r.name), r.ip)] + TldWrites(r, tlds, 0)))
            == Applied(map[], before)[Lower(r.name) := r.ip]
  {
    var first := [Write(Lower(r.name), r.ip)];
    assert before + (first + TldWrites(r, tlds, 0)) == before + first;
    AppliedOne(before, first[0]);
  }

  lemma RecordDone(records: seq<NameRecord>, tlds: seq<string>, i: nat)
    requires i < |records|
    ensures AllWrites(records[..i + 1], tlds) == AllWrites(records[..i], tlds) + RecordWrites(records[i], tlds)
    ensures RecordWrites(records[i], tlds) ==
            [Write(Lower(records[i].name), records[i].ip)] + TldWrites(records[i], tlds, |tlds|)
  {
    assert records[..i + 1][..i] == records[..i];
  }

  lemma WriteTld(table: map<string, Ipv4>, before: seq<Write>, r: NameRecord, tlds: seq<string>, k: nat)
    requires k < |tlds|
    requires table == Applied(map[], before + ([Write(Lower(r.name), r.ip)] + TldWrites(r, tlds, k)))
    ensures var tld := CleanTld(tlds[k]);
            var named := table[Lower(r.name) + "." + tld := r.ip];
            Applied(map[], before + ([Write(Lower(r.name), r.ip)] + TldWrites(r, tlds, k + 1))) ==
            if IsController(r) then named["registry." + tld := r.ip] else named
  {
    hide Applied, Lower, CleanTld, IsController;
    var tld := CleanTld(tlds[k]);
    var first := [Write(Lower(r.name), r.ip)];
    var done := before + (first + TldWrites(r, tlds, k));
    var named := Write(Lower(r.name) + "." + tld, r.ip);
    var registry := Write("registry." + tld, r.ip);
    AppliedOne(done, named);
    AppliedOne(done + [named], registry);
    if IsController(r) {
      assert before + (first + TldWrites(r, tlds, k + 1)) == done + [named] + [registry];
    } else {
      assert before + (first + TldWrites(r, tlds, k + 1)) == done + [named];
    }
  }

  lemma AppliedOne(writes: seq<Write>, w: Write)
    ensures Applied(map[], writes + [w]) == Applied(map[], writes)[w.key := w.value]
  {
    assert (writes + [w])[..|writes|] == writes;
  }

  /** A protocol object made before an update answers from the table after it. */
  method AnswerAfterUpdate(server: MagicDNSServer, protocol: MagicDNSProtocol,
                           newRecords: seq<NameRecord>, activeTlds: seq<string>, query: seq<byte>)
    returns (r: seq<byte>)
    requires protocol.records == server.records
    modifies server.records
    ensures r == MagicResponse(TableFor(newRecords, activeTlds), query)
  {
    server.UpdateRecords(newRecords, activeTlds);
    r := protocol.BuildDnsResponse(query);
  }

  // ----- What the table holds: the last write to each key

  function LastWrite(writes: seq<Write>, key: string): Option<Ipv4> {
    if writes == [] then None
    else if writes[|writes| - 1].key == key then Some(writes[|writes| - 1].value)
    else LastWrite(writes[..|writes| - 1], key)
  }

  lemma {:induction false} AppliedHoldsLastWrite(writes: seq<Write>, key: string)
    ensures match LastWrite(writes, key)
            case None => key !in Applied(map[], writes)
            case Some(v) => key in Applied(map[], writes) && Applied(map[], writes)[key] == v
  {
    if writes != [] {
      AppliedHoldsLastWrite(writes[..|writes| - 1], key);
    }
  }

  lemma {:induction false} LastWriteConcat(a: seq<Write>, b: seq<Write>, key: string)
    ensures LastWrite(a + b, key) == if LastWrite(b, key).Some? then LastWrite(b, key) else LastWrite(a, key)
  {
    if b == [] {
      assert a + b == a;
    } else {
      LastWriteConcat(a, b[..|b| - 1], key);
      assert (a + b)[..|a + b| - 1] == a + b[..|b| - 1];
    }
  }

  /** What makes a record answer to a key: it is the record's name in lower case, bare or under one of
      the TLDs; or it is the registry name under one of the TLDs, and the record is the controller's, by
      its name or by an address that ends in ".1". */
  ghost predicate Writes(r: NameRecord, tlds: seq<string>, key: string) {
    || key == Lower(r.name)
    || (exists t :: t in tlds && key == Lower(r.name) + "." + Lower(LStrip(t, '.')))
    || (exists t :: t in tlds && key == "registry." + Lower(LStrip(t, '.'))
                    && (Lower(r.name) == "controller" || r.ip % 256 == 1))
  }

  ghost predicate WritesUpTo(r: NameRecord, tlds: seq<string>, k: nat, key: string)
    requires k <= |tlds|
  {
    exists j :: 0 <= j < k && IsTldKey(r, tlds[j], key)
  }

  predicate IsTldKey(r: NameRecord, tld: string, key: string) {
    || key == Lower(r.name) + "." + Lower(LStrip(tld, '.'))
    || (key == "registry." + Lower(LStrip(tld, '.')) && (Lower(r.name) == "controller" || r.ip % 256 == 1))
  }

  lemma LastWriteStep(writes: seq<Write>, w: Write, key: string)
    ensures LastWrite(writes + [w], key) == if w.key == key then Some(w.value) else LastWrite(writes, key)
  {
    assert (writes + [w])[..|writes|] == writes;
  }

  lemma {:induction false} TldWritesHold(r: NameRecord, tlds: seq<string>, k: nat, key: string)
    requires k <= |tlds|
    ensures LastWrite(TldWrites(r, tlds, k), key) == if WritesUpTo(r, tlds, k, key) then Some(r.ip) else None
  {
    hide Lower, LStrip, LastWrite;
    if k == 0 {
      NothingWritten(key);
    } else {
      TldWritesHold(r, tlds, k - 1, key);
      var earlier, tld := TldWrites(r, tlds, k - 1), CleanTld(tlds[k - 1]);
      var named := Write(Lower(r.name) + "." + tld, r.ip);
      LastWriteStep(earlier, named, key);
      LastWriteStep(earlier + [named], Write("registry." + tld, r.ip), key);
      assert earlier + [named] + [] == earlier + [named];
      assert WritesUpTo(r, tlds, k, key) <==> WritesUpTo(r, tlds, k - 1, key) || IsTldKey(r, tlds[k - 1], key);
    }
  }

  lemma WritesIff(r: NameRecord, tlds: seq<string>, key: string)
    ensures LastWrite(RecordWrites(r, tlds), key) == if Writes(r, tlds, key) then Some(r.ip) else None
  {
    hide Lower, LStrip, TldWrites;
    TldWritesHold(r, tlds, |tlds|, key);
    var name := [Write(Lower(r.name), r.ip)];
    LastWriteConcat(name, TldWrites(r, tlds, |tlds|), key);
    LastWriteStep([], name[0], key);
    assert [] + name == name;
    WritesIndexed(r, tlds, key);
  }

  lemma WritesIndexed(r: NameRecord, tlds: seq<string>, key: string)
    ensures Writes(r, tlds, key) <==> key == Lower(r.name) || WritesUpTo(r, tlds, |tlds|, key)
  {
    hide Lower, LStrip;
    forall t | t in tlds && IsTldKey(r, t, key) ensures WritesUpTo(r, tlds, |tlds|, key) {
      var j :| 0 <= j < |tlds| && tlds[j] == t;
      assert IsTldKey(r, tlds[j], key);
    }
    if WritesUpTo(r, tlds, |tlds|, key) {
      var j :| 0 <= j < |tlds| && IsTldKey(r, tlds[j], key);
      assert tlds[j] in tlds;
    }
  }

  /** Record `i` is the last one that answers to the key. */
  ghost predicate IsLastWriter(records: seq<NameRecord>, tlds: seq<string>, key: string, i: nat) {
    i < |records| && Writes(records[i], tlds, key) && forall j :: i < j < |records| ==> !Writes(records[j], tlds, key)
  }

  lemma {:induction false} AllWritesHold(records: seq<NameRecord>, tlds: seq<string>, key: string)
    ensures match LastWrite(AllWrites(records, tlds), key)
            case None => forall i :: 0 <= i < |records| ==> !Writes(records[i], tlds, key)
            case Some(ip) => exists i: nat :: IsLastWriter(records, tlds, key, i) && records[i].ip == ip
  {
    hide Writes, RecordWrites, LastWrite;
    if records == [] {
      NothingWritten(key);
    } else {
      var n := |records| - 1;
      AllWritesHold(records[..n], tlds, key);
      WritesIff(records[n], tlds, key);
      LastWriteConcat(AllWrites(records[..n], tlds), RecordWrites(records[n], tlds), key);
      if Writes(records[n], tlds, key) {
        assert IsLastWriter(records, tlds, key, n);
      } else if LastWrite(AllWrites(records[..n], tlds), key).Some? {
        var i: nat :| IsLastWriter(records[..n], tlds, key, i)
                      && records[..n][i].ip == LastWrite(AllWrites(records[..n], tlds), key).value;
        assert IsLastWriter(records, tlds, key, i);
      } else {
        forall i | 0 <= i < |records| ensures !Writes(records[i], tlds, key) {
          assert i < n ==> records[i] == records[..n][i];
        }
      }
    }
  }

  lemma NothingWritten(key: string)
    ensures LastWrite([], key) == None
  {
  }

  /** The table holds a key exactly when some record answers to it, with the address of the last record
      that does. */
  lemma TableHoldsLastRecord(records: seq<NameRecord>, activeTlds: seq<string>, key: string)
    returns (tlds: seq<string>)
    ensures tlds == if activeTlds == [] then ["mesh", "cr"] else activeTlds
    ensures key in TableFor(records, activeTlds) <==> exists i: nat :: IsLastWriter(records, tlds, key, i)
    ensures forall i: nat :: IsLastWriter(records, tlds, key, i) ==>
              key in TableFor(records, activeTlds) && TableFor(records, activeTlds)[key] == records[i].ip
  {
    hide Writes, AllWrites, Applied;
    tlds := Chosen(activeTlds);
    AllWritesHold(records, tlds, key);
    AppliedHoldsLastWrite(AllWrites(records, tlds), key);
  }

  /** The labels, joined by dots, spell the name in some mix of cases. */
  predicate Spells(labels: seq<string>, name: string) {
    labels != [] && Lower(Join(labels, ".")) == Lower(name)
  }

  lemma SpelledName(labels: seq<string>, name: string)
    requires Spells(labels, name)
    ensures DomainName(labels) == Lower(name)
  {
  }

  lemma SpelledUnder(a: seq<string>, b: seq<string>, name: string, tld: string)
    requires Spells(a, name) && Spells(b, LStrip(tld, '.'))
    ensures DomainName(a + b) == Lower(name) + "." + Lower(LStrip(tld, '.'))
  {
    hide DomainName;
    NameOfLabels(a, b);
    SpelledName(a, name);
    SpelledName(b, LStrip(tld, '.'));
  }

  /** The response repeats the query's id and its question, whose name ends at `end`, and has one answer,
      for that name, of type A and class IN, for 60 seconds, with the address. */
  ghost predicate IsAnswer(r: seq<byte>, query: seq<byte>, end: nat, ip: Ipv4) {
    && 12 <= end && end + 4 <= |query| && |r| == end + 4 + 16
    && r[..2] == query[..2] && r[2..4] == [0x81, 0x80] && r[4..6] == query[4..6] && r[6..12] == [0, 1, 0, 0, 0, 0]
    && r[12..end + 4] == query[12..end + 4]
    && r[end + 4..end + 16] == [0xC0, 0x0C, 0, 1, 0, 1, 0, 0, 0, 60, 0, 4]
    && Get32(r[end + 16..]) == ip
  }

  lemma QueryAnswered(records: seq<NameRecord>, activeTlds: seq<string>, i: nat, key: string,
                      header: seq<byte>, labels: seq<string>, rest: seq<byte>)
    requires |header| == HEADER_LENGTH && |rest| >= 4 && ValidLabels(labels) && DomainName(labels) == key
    requires IsLastWriter(records, Chosen(activeTlds), key, i)
    ensures var query := header + EncodeName(labels) + rest;
            IsAnswer(MagicResponse(TableFor(records, activeTlds), query), query,
                     HEADER_LENGTH + |EncodeName(labels)|, records[i].ip)
  {
    hide TableFor, IsLastWriter, ReadName, ReadRawName, DomainName, EncodeName, MagicResponse, NoPointer, Get32;
    var query := header + EncodeName(labels) + rest;
    NameRoundTrip(header, labels, rest);
    EncodedNameHasNoPointer(header, labels, rest);
    ParsersAgreeIff(query, HEADER_LENGTH);
    var tlds := TableHoldsLastRecord(records, activeTlds, key);
    AnsweredOrRefused(TableFor(records, activeTlds), query);
  }

  /** End to end: a query for a record's name, spelled in any mix of cases, gets the address of that
      record, if no later one answers to the name. */
  lemma MagicAnswersRecord(records: seq<NameRecord>, activeTlds: seq<string>, i: nat,
                           header: seq<byte>, labels: seq<string>, rest: seq<byte>)
    requires i < |records| && |header| == HEADER_LENGTH && |rest| >= 4 && ValidLabels(labels)
    requires Spells(labels, records[i].name)
    requires IsLastWriter(records, Chosen(activeTlds), Lower(records[i].name), i)
    ensures var query := header + EncodeName(labels) + rest;
            IsAnswer(MagicResponse(TableFor(records, activeTlds), query), query,
                     HEADER_LENGTH + |EncodeName(labels)|, records[i].ip)
  {
    hide TableFor, IsLastWriter, MagicResponse, DomainName, IsAnswer, Lower, LStrip, Spells, EncodeName;
    SpelledName(labels, records[i].name);
    QueryAnswered(records, activeTlds, i, Lower(records[i].name), header, labels, rest);
  }

  /** The same for its name under one of the TLDs, the TLD too in any mix of cases. */
  lemma MagicAnswersRecordUnder(records: seq<NameRecord>, activeTlds: seq<string>, i: nat, tld: string,
                                header: seq<byte>, a: seq<string>, b: seq<string>, rest: seq<byte>)
    requires i < |records| && |header| == HEADER_LENGTH && |rest| >= 4 && ValidLabels(a + b)
    requires Spells(a, records[i].name) && Spells(b, LStrip(tld, '.'))
    requires IsLastWriter(records, Chosen(activeTlds), Lower(records[i].name) + "." + Lower(LStrip(tld, '.')), i)
    ensures var query := header + EncodeName(a + b) + rest;
            IsAnswer(MagicResponse(TableFor(records, activeTlds), query), query,
                     HEADER_LENGTH + |EncodeName(a + b)|, records[i].ip)
  {
    hide TableFor, IsLastWriter, MagicResponse, DomainName, IsAnswer, Lower, LStrip, Spells, EncodeName;
    SpelledUnder(a, b, records[i].name, tld);
    QueryAnswered(records, activeTlds, i, Lower(records[i].name) + "." + Lower(LStrip(tld, '.')), header, a + b, rest);
  }

  lemma {:induction false} EncodedNameHasNoPointer(pre: seq<byte>, labels: seq<string>, post: seq<byte>)
    requires ValidLabels(labels)
    ensures NoPointer(pre + EncodeName(labels) + post, |pre|)
    decreases |labels|
  {
    var data := pre + EncodeName(labels) + post;
    if labels == [] {
      assert data[|pre|] == 0;
    } else {
      assert ValidLabel(labels[0]);
      var first := [|labels[0]|] + EncodeAscii(labels[0]);
      assert data == pre + first + EncodeName(labels[1..]) + post;
      assert data[|pre|] == |labels[0]|;
      EncodedNameHasNoPointer(pre + first, labels[1..], post);
    }
  }
}
