/** The relay's frame codec, and the server that learns endpoints and forwards frames. */
module Relay {
  import opened Bytes
  import opened Outcomes
  import opened Text

  const RELAY_MAGIC: seq<byte> := [0x50, 0x59, 0x52, 0x45, 0x4C, 0x41, 0x59]
  const HEADER_LEN: nat := 73
  const ID_LEN: nat := 32
  const NUL := '\0'

  datatype Frame = Frame(src: string, dst: string, payload: seq<byte>)

  datatype EncodeError = NotAscii | PayloadTooLong

  /** The first 32 characters. */
  function Cut(id: string): (r: string)
    ensures |r| <= ID_LEN && r <= id
  {
    if |id| <= ID_LEN then id else id[..ID_LEN]
  }

  /** `id[:32].ljust(32, NUL)` */
  function Padded(id: string): (r: string)
    ensures |r| == ID_LEN
    ensures IsAscii(Cut(id)) ==> IsAscii(r)
  {
    Cut(id) + seq(ID_LEN - |Cut(id)|, _ => NUL)
  }

  /** What is left of an id after the frame: 32 characters at most, and no trailing NULs. */
  function Key(id: string): (r: string)
    ensures |r| <= ID_LEN && r <= id
  {
    RStripChar(Cut(id), NUL)
  }

  /** Non-ASCII ids and payloads beyond 16 bits of length make the source raise. */
  function EncodeFrame(f: Frame): Result<seq<byte>, EncodeError> {
    if !IsAscii(Cut(f.src)) || !IsAscii(Cut(f.dst)) then Err(NotAscii)
    else if |f.payload| >= 0x1_0000 then Err(PayloadTooLong)
    else Ok(RELAY_MAGIC + EncodeAscii(Padded(f.src)) + EncodeAscii(Padded(f.dst)) + Put16(|f.payload|) + f.payload)
  }

  /** A frame can be encoded exactly when the parts of its ids that it carries are ASCII and its payload
      is shorter than 2^16; what an id has behind its 32nd character does not matter. */
  lemma EncodesIff(f: Frame)
    ensures EncodeFrame(f).Ok? <==>
            && (forall i :: 0 <= i < 32 && i < |f.src| ==> (f.src[i] as int) < 128)
            && (forall i :: 0 <= i < 32 && i < |f.dst| ==> (f.dst[i] as int) < 128)
            && |f.payload| < 65536
    ensures EncodeFrame(f).Ok? ==> |EncodeFrame(f).value| == 73 + |f.payload|
  {
    AsciiPart(f.src);
    AsciiPart(f.dst);
  }

  lemma AsciiPart(id: string)
    ensures IsAscii(Cut(id)) <==> forall i :: 0 <= i < 32 && i < |id| ==> (id[i] as int) < 128
  {
    forall i | 0 <= i < |Cut(id)| ensures Cut(id)[i] == id[i] {
    }
  }

  function DecodeId(data: seq<byte>): string {
    RStripChar(DecodeAscii(data), NUL)
  }

  function DeclaredLength(data: seq<byte>): nat
    requires |data| >= HEADER_LEN
  {
    Get16(data[71], data[72])
  }

  function DecodeFrame(data: seq<byte>): Option<Frame> {
    if |data| < HEADER_LEN then None
    else if data[..7] != RELAY_MAGIC then None
    else
      Some(Frame(DecodeId(data[7..39]), DecodeId(data[39..71]),
                 Slice(data, HEADER_LEN, HEADER_LEN + DeclaredLength(data))))
  }

  // ----- The codec inverts itself both ways

  lemma {:induction false} StripDropsPadding(s: string, k: nat)
    ensures RStripChar(s + seq(k, _ => NUL), NUL) == RStripChar(s, NUL)
  {
    var padded := s + seq(k, _ => NUL);
    if k == 0 {
      assert padded == s;
    } else {
      assert padded[..|padded| - 1] == s + seq(k - 1, _ => NUL);
      StripDropsPadding(s, k - 1);
    }
  }

  lemma IdRoundTrip(id: string)
    requires IsAscii(Cut(id))
    ensures DecodeId(EncodeAscii(Padded(id))) == Key(id)
  {
    DecodeInvertsEncode(Padded(id));
    StripDropsPadding(Cut(id), ID_LEN - |Cut(id)|);
  }

  /** The fields of a frame stand one behind the other in the data. */
  ghost predicate Fields(data: seq<byte>, s: seq<byte>, d: seq<byte>, l: seq<byte>, rest: seq<byte>) {
    && |data| == HEADER_LEN + |rest| && |s| == ID_LEN && |d| == ID_LEN && |l| == 2
    && data[..7] == RELAY_MAGIC && data[7..39] == s && data[39..71] == d
    && data[71] == l[0] && data[72] == l[1] && data[73..] == rest
  }

  lemma FieldsIff(data: seq<byte>, s: seq<byte>, d: seq<byte>, l: seq<byte>, rest: seq<byte>)
    requires |s| == ID_LEN && |d| == ID_LEN && |l| == 2
    ensures data == RELAY_MAGIC + s + d + l + rest <==> Fields(data, s, d, l, rest)
  {
    var whole := RELAY_MAGIC + s + d + l + rest;
    assert Fields(whole, s, d, l, rest);
    if Fields(data, s, d, l, rest) {
      assert data == data[..7] + data[7..39] + data[39..71] + [data[71], data[72]] + data[73..];
      assert l == [l[0], l[1]];
    }
  }

  lemma FieldsDecode(data: seq<byte>, s: seq<byte>, d: seq<byte>, l: seq<byte>, rest: seq<byte>)
    requires Fields(data, s, d, l, rest) && Get16(l[0], l[1]) <= |rest|
    ensures DecodeFrame(data) == Some(Frame(DecodeId(s), DecodeId(d), rest[..Get16(l[0], l[1])]))
  {
    hide DecodeId, Get16;
    var n := Get16(l[0], l[1]);
    assert data[HEADER_LEN..HEADER_LEN + n] == rest[..n];
  }

  /** Decoding an encoded frame, with anything behind it, gives the ids cut to 32 characters without
      trailing NULs, and the payload. */
  lemma DecodeInvertsEncodeFrame(f: Frame, junk: seq<byte>)
    requires EncodeFrame(f).Ok?
    ensures DecodeFrame(EncodeFrame(f).value + junk) ==
            Some(Frame(Key(f.src), Key(f.dst), f.payload))
  {
    hide Padded, EncodeAscii, DecodeAscii, Key, Fields, DecodeFrame, Put16, Get16;
    var s, d, l := EncodeAscii(Padded(f.src)), EncodeAscii(Padded(f.dst)), Put16(|f.payload|);
    var whole := EncodeFrame(f).value + junk;
    assert whole == RELAY_MAGIC + s + d + l + (f.payload + junk);
    FieldsIff(whole, s, d, l, f.payload + junk);
    FieldsDecode(whole, s, d, l, f.payload + junk);
    IdRoundTrip(f.src);
    IdRoundTrip(f.dst);
  }

  /** An id survives the frame exactly when it has at most 32 characters and does not end in NUL. */
  lemma KeyKeepsIff(id: string)
    ensures Key(id) == id <==> |id| <= ID_LEN && (id == "" || id[|id| - 1] != NUL)
  {
  }

  /** So decoding gives the frame back exactly when both of its ids are that short. */
  lemma IdsSurviveIff(f: Frame)
    requires EncodeFrame(f).Ok?
    ensures DecodeFrame(EncodeFrame(f).value) == Some(f) <==>
            forall id :: id == f.src || id == f.dst ==> |id| <= ID_LEN && (id == "" || id[|id| - 1] != NUL)
  {
    hide EncodeFrame, DecodeFrame, Key;
    DecodeInvertsEncodeFrame(f, []);
    assert EncodeFrame(f).value + [] == EncodeFrame(f).value;
    KeyKeepsIff(f.src);
    KeyKeepsIff(f.dst);
  }

  lemma {:induction false} StripThenPad(s: string)
    requires |s| <= ID_LEN
    ensures RStripChar(s, NUL) + seq(|s| - |RStripChar(s, NUL)|, _ => NUL) == s
  {
  }

  lemma IdReencodesIff(b: seq<byte>)
    requires |b| == ID_LEN
    ensures EncodeAscii(Padded(DecodeId(b))) == b <==> AllBelow128(b)
  {
    var id := DecodeId(b);
    assert IsAscii(id);
    if AllBelow128(b) {
      StripThenPad(DecodeAscii(b));
      assert Padded(id) == DecodeAscii(b);
      EncodeInvertsDecode(b);
    } else {
      var i :| 0 <= i < |b| && b[i] >= 128;
      assert EncodeAscii(Padded(id))[i] < 128;
    }
  }

  /** A frame the decoder accepts re-encodes to itself exactly when its ids are ASCII and its length
      is the header plus the declared payload. */
  lemma EncodeInvertsDecodeFrameIff(data: seq<byte>)
    requires DecodeFrame(data).Some?
    ensures EncodeFrame(DecodeFrame(data).value) == Ok(data) <==>
            AllBelow128(data[7..39]) && AllBelow128(data[39..71]) && |data| == HEADER_LEN + DeclaredLength(data)
  {
    hide Padded, EncodeAscii, DecodeId, Put16, Get16;
    var f := DecodeFrame(data).value;
    IdsDecodeToAscii(data[7..39]);
    IdsDecodeToAscii(data[39..71]);
    IdReencodesIff(data[7..39]);
    IdReencodesIff(data[39..71]);
    FieldsIff(data, EncodeAscii(Padded(f.src)), EncodeAscii(Padded(f.dst)), Put16(|f.payload|), f.payload);
    LengthFieldIff(data, f.payload);
  }

  lemma LengthFieldIff(data: seq<byte>, payload: seq<byte>)
    requires |data| >= HEADER_LEN && payload == Slice(data, HEADER_LEN, HEADER_LEN + DeclaredLength(data))
    ensures |payload| < 0x1_0000
    ensures Put16(|payload|) == [data[71], data[72]] && payload == data[73..] <==>
            |data| == HEADER_LEN + DeclaredLength(data)
  {
    Put16Inverts(data[71], data[72]);
  }

  lemma IdsDecodeToAscii(b: seq<byte>)
    requires |b| == ID_LEN
    ensures IsAscii(Cut(DecodeId(b))) && Cut(DecodeId(b)) == DecodeId(b)
  {
  }

  // ----- The server

  datatype Address = Address(host: string, port: nat)

  datatype Datagram = Datagram(data: seq<byte>, sender: Address)

  datatype Send = Send(data: seq<byte>, to: Address)

  /** The address the source id last announced, over the whole trace. */
  function LastAnnounced(trace: seq<Datagram>, id: string): Option<Address> {
    if trace == [] then None
    else
      var last := trace[|trace| - 1];
      var f := DecodeFrame(last.data);
      if f.Some? && f.value.src == id then Some(last.sender) else LastAnnounced(trace[..|trace| - 1], id)
  }

  /** What the server must send for the last datagram of a trace. */
  function Forwarded(trace: seq<Datagram>): Option<Send>
    requires trace != []
  {
    var last := trace[|trace| - 1];
    match DecodeFrame(last.data)
    case None => None
    case Some(f) =>
      match LastAnnounced(trace, f.dst)
      case None => None
      case Some(to) => Some(Send(last.data, to))
  }

  /** A datagram decodes exactly when it has a whole header that starts with "PYRELAY". */
  lemma DecodesIff(data: seq<byte>)
    ensures DecodeFrame(data).Some? <==>
            |data| >= 73 && DecodeAscii(data[..7]) == "PYRELAY" && AllBelow128(data[..7])
  {
    if |data| >= 73 {
      assert EncodeAscii("PYRELAY") == RELAY_MAGIC;
      DecodeInvertsEncode("PYRELAY");
      if AllBelow128(data[..7]) {
        EncodeInvertsDecode(data[..7]);
      }
    }
  }

  /** After a datagram something is sent exactly when it decodes and somebody has announced its
      destination, possibly by this very datagram; then it is that datagram, to that address. An
      undecodable one changes no announcement either. */
  lemma ForwardedIff(trace: seq<Datagram>, d: Datagram, out: Send)
    ensures Forwarded(trace + [d]) == Some(out) <==>
            && DecodeFrame(d.data).Some? && out.data == d.data
            && LastAnnounced(trace + [d], DecodeFrame(d.data).value.dst) == Some(out.to)
    ensures DecodeFrame(d.data).None? ==>
              Forwarded(trace + [d]) == None && forall id :: LastAnnounced(trace + [d], id) == LastAnnounced(trace, id)
  {
    hide DecodeFrame;
    assert (trace + [d])[..|trace|] == trace;
  }

  class RelayServerProtocol {
    var nodeEndpoints: map<string, Address>

    constructor ()
      ensures Knows([])
    {
      nodeEndpoints := map[];
    }

    /** The endpoint table is the last announcement of every id in the trace. */
    ghost predicate Knows(trace: seq<Datagram>)
      reads this
    {
      forall id :: LastAnnounced(trace, id) == if id in nodeEndpoints then Some(nodeEndpoints[id]) else None
    }

    method DatagramReceived(d: Datagram, ghost trace: seq<Datagram>) returns (out: Option<Send>)
      requires Knows(trace)
      modifies this
      ensures Knows(trace + [d])
      ensures out == Forwarded(trace + [d])
    {
      assert (trace + [d])[..|trace|] == trace;
      var decoded := DecodeFrame(d.data);
      if decoded.None? {
        return None;
      }
      var f := decoded.value;
      nodeEndpoints := nodeEndpoints[f.src := d.sender];
      if f.dst in nodeEndpoints {
        return Some(Send(d.data, nodeEndpoints[f.dst]));
      }
      return None;
    }

    /** Any run of datagrams: one decision per datagram, each the one its own prefix calls for. */
    method Serve(trace: seq<Datagram>) returns (outs: seq<Option<Send>>)
      requires Knows([])
      modifies this
      ensures Knows(trace)
      ensures |outs| == |trace|
      ensures forall i :: 0 <= i < |trace| ==> outs[i] == Forwarded(trace[..i + 1])
    {
      outs := [];
      for i := 0 to |trace|
        invariant Knows(trace[..i]) && |outs| == i
        invariant forall j :: 0 <= j < i ==> outs[j] == Forwarded(trace[..j + 1])
      {
        assert trace[..i] + [trace[i]] == trace[..i + 1];
        var out := DatagramReceived(trace[i], trace[..i]);
        outs := outs + [out];
      }
      assert trace[..|trace|] == trace;
    }
  }

  /** Datagram `i` is the last decodable frame of this source. */
  ghost predicate LastFrom(trace: seq<Datagram>, id: string, i: nat) {
    i < |trace| && Announces(trace[i], id) && forall j :: i < j < |trace| ==> !Announces(trace[j], id)
  }

  /** The announced address is the sender of the last decodable frame of that source, and there is
      none exactly when the source sent no decodable frame. */
  lemma {:induction false} LastAnnouncedIsLast(trace: seq<Datagram>, id: string)
    ensures match LastAnnounced(trace, id)
            case None => forall i :: 0 <= i < |trace| ==> !Announces(trace[i], id)
            case Some(a) => exists i: nat :: LastFrom(trace, id, i) && trace[i].sender == a
  {
    hide DecodeFrame;
    if trace != [] {
      var n := |trace| - 1;
      var init := trace[..n];
      LastAnnouncedIsLast(init, id);
      if Announces(trace[n], id) {
        assert LastFrom(trace, id, n);
      } else if LastAnnounced(init, id).Some? {
        var i: nat :| LastFrom(init, id, i) && init[i].sender == LastAnnounced(init, id).value;
        assert LastFrom(trace, id, i);
      } else {
        forall i | 0 <= i < |trace| ensures !Announces(trace[i], id) {
          assert i < n ==> trace[i] == init[i];
        }
      }
    }
  }

  predicate Announces(d: Datagram, id: string) {
    DecodeFrame(d.data).Some? && DecodeFrame(d.data).value.src == id
  }

  /** Any encoded frame, with ids of any length, is forwarded unchanged to whoever last announced the
      destination's key, which is its own sender where both ids have one key; and it announces its
      sender under the source's key. */
  lemma EncodedFramesAreForwarded(trace: seq<Datagram>, f: Frame, sender: Address)
    requires EncodeFrame(f).Ok?
    ensures var data := EncodeFrame(f).value;
            var trace' := trace + [Datagram(data, sender)];
            && LastAnnounced(trace', Key(f.src)) == Some(sender)
            && Forwarded(trace') ==
               if Key(f.src) == Key(f.dst) then Some(Send(data, sender))
               else match LastAnnounced(trace, Key(f.dst)) case None => None case Some(to) => Some(Send(data, to))
  {
    hide EncodeFrame, DecodeFrame, Key;
    var data := EncodeFrame(f).value;
    DecodeInvertsEncodeFrame(f, []);
    assert data + [] == data;
    assert (trace + [Datagram(data, sender)])[..|trace|] == trace;
  }

  /** Two nodes that have announced themselves reach each other, whatever the length of their ids. */
  lemma KnownNodesAreReached(trace: seq<Datagram>, f: Frame, sender: Address, to: Address)
    requires EncodeFrame(f).Ok? && Key(f.src) != Key(f.dst)
    requires LastAnnounced(trace, Key(f.dst)) == Some(to)
    ensures var data := EncodeFrame(f).value;
            && Forwarded(trace + [Datagram(data, sender)]) == Some(Send(data, to))
            && LastAnnounced(trace + [Datagram(data, sender)], Key(f.src)) == Some(sender)
  {
    hide EncodeFrame, Key;
    EncodedFramesAreForwarded(trace, f, sender);
  }

  /** Where `b` has announced itself last, a frame for `a` reaches the address of `b` exactly when the
      two ids have the same key. */
  lemma MisdeliveredIff(trace: seq<Datagram>, hello: Frame, at: Address, a: string, f: Frame, sender: Address)
    requires EncodeFrame(hello).Ok? && EncodeFrame(f).Ok? && f.dst == a
    requires Key(f.src) != Key(a) && at != sender
    requires LastAnnounced(trace, Key(a)) != Some(at)
    ensures var trace' := trace + [Datagram(EncodeFrame(hello).value, at), Datagram(EncodeFrame(f).value, sender)];
            Forwarded(trace') == Some(Send(EncodeFrame(f).value, at)) <==> Key(a) == Key(hello.src)
  {
    hide EncodeFrame, DecodeFrame, Key;
    var first := trace + [Datagram(EncodeFrame(hello).value, at)];
    var second := Datagram(EncodeFrame(f).value, sender);
    assert trace + [Datagram(EncodeFrame(hello).value, at), second] == first + [second];
    DecodeInvertsEncodeFrame(hello, []);
    assert EncodeFrame(hello).value + [] == EncodeFrame(hello).value;
    assert first[..|trace|] == trace;
    EncodedFramesAreForwarded(first, f, sender);
  }

  predicate IsHexId(id: string) {
    |id| == 64 && forall i :: 0 <= i < |id| ==> '0' <= id[i] <= '9' || 'a' <= id[i] <= 'f'
  }

  /** No 64-character node id survives, and its key is its first half. */
  lemma HexIdsAreHalved(id: string)
    requires IsHexId(id)
    ensures Key(id) == id[..ID_LEN] && Key(id) != id
    ensures IsAscii(Cut(id))
  {
    KeyKeepsIff(id[..ID_LEN]);
    assert Cut(id[..ID_LEN]) == id[..ID_LEN];
  }

  /** Two node ids that differ in their second halves only: after `b` has announced itself, what `c`
      sends to `a` goes to `b`. */
  lemma SharedHalfExample(c: string, payload: seq<byte>, at: Address, sender: Address)
    returns (a: string, b: string)
    requires IsHexId(c) && c[0] != 'a' && |payload| < 0x1_0000
    ensures IsHexId(a) && IsHexId(b) && a != b
    ensures EncodeFrame(Frame(b, c, payload)).Ok? && EncodeFrame(Frame(c, a, payload)).Ok?
    ensures var data := EncodeFrame(Frame(c, a, payload)).value;
            Forwarded([Datagram(EncodeFrame(Frame(b, c, payload)).value, at), Datagram(data, sender)])
            == Some(Send(data, at))
  {
    hide Key, DecodeFrame, Padded, EncodeAscii, Cut, Forwarded, LastAnnounced;
    a := seq(64, _ => 'a');
    b := seq(64, i => if i < 32 then 'a' else 'b');
    assert a[63] != b[63];
    HexIdsAreHalved(a);
    HexIdsAreHalved(b);
    HexIdsAreHalved(c);
    assert a[..ID_LEN] == b[..ID_LEN];
    assert c[..ID_LEN][0] != a[..ID_LEN][0];
    var hello, f := Frame(b, c, payload), Frame(c, a, payload);
    var first := Datagram(EncodeFrame(hello).value, at);
    EncodedFramesAreForwarded([], hello, at);
    assert [] + [first] == [first];
    EncodedFramesAreForwarded([first], f, sender);
    assert [first] + [Datagram(EncodeFrame(f).value, sender)] == [first, Datagram(EncodeFrame(f).value, sender)];
  }
}
