/** The attribute walk over a STUN response (RFC 5389, sections 15, 15.1 and 15.2). */
module Stun {
  import opened Bytes
  import opened Networks
  import opened Outcomes

  const STUN_HEADER: nat := 20
  const MAGIC_COOKIE: nat := 0x2112A442
  const MAPPED_ADDRESS: nat := 0x0001
  const XOR_MAPPED_ADDRESS: nat := 0x0020
  const FAMILY_IPV4: byte := 1

  datatype Attribute = Attribute(kind: nat, value: seq<byte>)

  datatype Mapped = Mapped(ip: nat, port: nat)

  /** `(n + 3) & ~3` */
  function RoundUp4(n: nat): nat {
    ClearLowBits(n + 3, 2)
  }

  /** The mask rounds up to the next multiple of four. */
  lemma RoundUp4IsLeast(n: nat)
    ensures RoundUp4(n) % 4 == 0 && n <= RoundUp4(n) < n + 4
  {
    SmallPow2();
    TwoClearBits(RoundUp4(n), 2);
  }

  /** The attributes found from `offset` on, up to the first that does not fit. */
  function Attributes(data: seq<byte>, offset: nat): seq<Attribute>
    decreases |data| - offset
  {
    if offset + 4 > |data| then []
    else
      var length := Get16(data[offset + 2], data[offset + 3]);
      var start := offset + 4;
      RoundUp4IsLeast(length);
      if start + length > |data| then []
      else [Attribute(Get16(data[offset], data[offset + 1]), data[start..start + length])]
           + Attributes(data, start + RoundUp4(length))
  }

  /** The IPv4 address an attribute announces, if it announces one. */
  function AddressOf(a: Attribute): Option<Mapped> {
    if |a.value| < 8 || a.value[1] != FAMILY_IPV4 then None
    else if a.kind == XOR_MAPPED_ADDRESS then
      Some(Mapped(Xor(Get32(a.value[4..8]), MAGIC_COOKIE), Xor(Get16(a.value[2], a.value[3]), MAGIC_COOKIE / 0x1_0000)))
    else if a.kind == MAPPED_ADDRESS then
      Some(Mapped(Get32(a.value[4..8]), Get16(a.value[2], a.value[3])))
    else None
  }

  function FirstAddress(attributes: seq<Attribute>): Option<Mapped> {
    if attributes == [] then None
    else if AddressOf(attributes[0]).Some? then AddressOf(attributes[0])
    else FirstAddress(attributes[1..])
  }

  /** An attribute header is at the offset, and its value fits. */
  predicate Fits(data: seq<byte>, offset: nat) {
    offset + 4 <= |data| && offset + 4 + Get16(data[offset + 2], data[offset + 3]) <= |data|
  }

  lemma AttributesStep(data: seq<byte>, offset: nat)
    ensures !Fits(data, offset) ==> Attributes(data, offset) == []
    ensures Fits(data, offset) ==>
              var length := Get16(data[offset + 2], data[offset + 3]);
              Attributes(data, offset) ==
              [Attribute(Get16(data[offset], data[offset + 1]), data[offset + 4..offset + 4 + length])]
              + Attributes(data, offset + 4 + RoundUp4(length))
  {
    hide RoundUp4, Get16;
  }

  lemma FirstAddressStep(a: Attribute, rest: seq<Attribute>)
    ensures FirstAddress([a] + rest) == if AddressOf(a).Some? then AddressOf(a) else FirstAddress(rest)
  {
    hide AddressOf;
    assert ([a] + rest)[1..] == rest;
  }

  // What one turn of the loop has read, and what is left for the next.
  lemma TurnOfTheWalk(data: seq<byte>, offset: nat)
    requires Fits(data, offset)
    ensures var length := Get16(data[offset + 2], data[offset + 3]);
            var a := Attribute(Get16(data[offset], data[offset + 1]), data[offset + 4..offset + 4 + length]);
            var next := offset + 4 + RoundUp4(length);
            && offset < next && (offset % 4 == 0 ==> next % 4 == 0)
            && FirstAddress(Attributes(data, offset)) ==
               if AddressOf(a).Some? then AddressOf(a) else FirstAddress(Attributes(data, next))
  {
    hide RoundUp4, Get16, Attributes, AddressOf, FirstAddress;
    var length := Get16(data[offset + 2], data[offset + 3]);
    var a := Attribute(Get16(data[offset], data[offset + 1]), data[offset + 4..offset + 4 + length]);
    AttributesStep(data, offset);
    RoundUp4IsLeast(length);
    FirstAddressStep(a, Attributes(data, offset + 4 + RoundUp4(length)));
  }

  method ParseStunResponse(data: seq<byte>, transId: seq<byte>) returns (r: Option<Mapped>)
    ensures r == if |data| < STUN_HEADER then None else FirstAddress(Attributes(data, STUN_HEADER))
  {
    hide Xor, Get16, Get32, RoundUp4, Attributes;
    if |data| < STUN_HEADER {
      return None;
    }
    var offset := STUN_HEADER;
    while offset < |data|
      invariant STUN_HEADER <= offset && offset % 4 == 0
      invariant FirstAddress(Attributes(data, offset)) == FirstAddress(Attributes(data, STUN_HEADER))
      decreases |data| - offset
    {
      if Fits(data, offset) {
        TurnOfTheWalk(data, offset);
      } else {
        AttributesStep(data, offset);
      }
      if offset + 4 > |data| {
        break;
      }
      var kind, length := Get16(data[offset], data[offset + 1]), Get16(data[offset + 2], data[offset + 3]);
      offset := offset + 4;
      if offset + length > |data| {
        break;
      }
      var value := data[offset..offset + length];
      offset := offset + RoundUp4(length);

      if kind == XOR_MAPPED_ADDRESS && |value| >= 8 {
        if value[1] == FAMILY_IPV4 {
          var port := Xor(Get16(value[2], value[3]), MAGIC_COOKIE / 0x1_0000);
          var ip := Xor(Get32(value[4..8]), MAGIC_COOKIE);
          return Some(Mapped(ip, port));
        }
      } else if kind == MAPPED_ADDRESS && |value| >= 8 {
        if value[1] == FAMILY_IPV4 {
          return Some(Mapped(Get32(value[4..8]), Get16(value[2], value[3])));
        }
      }
    }
    AttributesStep(data, offset);
    return None;
  }

  // ----- The encoding of the standard, and its inverse

  predicate Encodable(a: Attribute) {
    a.kind < 0x1_0000 && |a.value| < 0x1_0000
  }

  function AttributeHeader(a: Attribute): (h: seq<byte>)
    requires Encodable(a)
    ensures |h| == 4 && Get16(h[0], h[1]) == a.kind && Get16(h[2], h[3]) == |a.value|
  {
    Put16(a.kind) + Put16(|a.value|)
  }

  /** The value and these bytes together fill a multiple of four. */
  predicate Pads(a: Attribute, pad: seq<byte>) {
    |a.value| + |pad| == RoundUp4(|a.value|)
  }

  /** Section 15: type, length, value, and padding of any content up to a multiple of four. */
  function EncodeAttribute(a: Attribute, pad: seq<byte>): (r: seq<byte>)
    requires Encodable(a) && Pads(a, pad)
    ensures |r| == 4 + RoundUp4(|a.value|)
  {
    AttributeHeader(a) + a.value + pad
  }

  /** Every attribute can be encoded, and has its own padding. */
  predicate Padded(attributes: seq<Attribute>, pads: seq<seq<byte>>) {
    && |pads| == |attributes|
    && forall i :: 0 <= i < |attributes| ==> Encodable(attributes[i]) && Pads(attributes[i], pads[i])
  }

  function EncodeAttributes(attributes: seq<Attribute>, pads: seq<seq<byte>>): seq<byte>
    requires Padded(attributes, pads)
  {
    if attributes == [] then []
    else EncodeAttribute(attributes[0], pads[0]) + EncodeAttributes(attributes[1..], pads[1..])
  }

  lemma LayoutReads(pre: seq<byte>, h: seq<byte>, v: seq<byte>, rest: seq<byte>)
    requires |h| == 4
    ensures var data := pre + (h + v + rest);
            && data[|pre|] == h[0] && data[|pre| + 1] == h[1] && data[|pre| + 2] == h[2] && data[|pre| + 3] == h[3]
            && data[|pre| + 4..|pre| + 4 + |v|] == v
  {
  }

  lemma ReadsAttribute(data: seq<byte>, p: nat, a: Attribute)
    requires p + 4 + |a.value| <= |data|
    requires Get16(data[p], data[p + 1]) == a.kind && Get16(data[p + 2], data[p + 3]) == |a.value|
    requires data[p + 4..p + 4 + |a.value|] == a.value
    ensures Attributes(data, p) == [a] + Attributes(data, p + 4 + RoundUp4(|a.value|))
  {
    hide Attributes, RoundUp4, Get16;
    AttributesStep(data, p);
  }

  lemma AttributeReadBack(data: seq<byte>, pre: seq<byte>, a: Attribute, rest: seq<byte>)
    requires Encodable(a) && data == pre + (AttributeHeader(a) + a.value + rest)
    ensures Attributes(data, |pre|) == [a] + Attributes(data, |pre| + 4 + RoundUp4(|a.value|))
  {
    hide Attributes, AttributeHeader, RoundUp4, Get16;
    LayoutReads(pre, AttributeHeader(a), a.value, rest);
    ReadsAttribute(data, |pre|, a);
  }

  lemma FirstLayout(a: Attribute, pad: seq<byte>, rest: seq<byte>)
    requires Encodable(a) && Pads(a, pad)
    ensures EncodeAttribute(a, pad) + rest == AttributeHeader(a) + a.value + (pad + rest)
  {
    hide AttributeHeader, Pads;
  }

  /** What cannot hold an attribute: no whole header, or less than the length it declares. */
  predicate IsStump(tail: seq<byte>) {
    |tail| < 4 || |tail| < 4 + Get16(tail[2], tail[3])
  }

  lemma NoAttributes(pre: seq<byte>, tail: seq<byte>)
    requires IsStump(tail)
    ensures Attributes(pre + tail, |pre|) == []
  {
    hide Attributes, Get16;
    AttributesStep(pre + tail, |pre|);
  }

  /** Any list of encodable attributes, each with its own padding, is read back attribute by
      attribute, and nothing of an incomplete one behind them. */
  lemma {:induction false} AttributesRoundTrip(pre: seq<byte>, attributes: seq<Attribute>, pads: seq<seq<byte>>,
                                               tail: seq<byte>)
    requires Padded(attributes, pads) && IsStump(tail)
    ensures Attributes(pre + EncodeAttributes(attributes, pads) + tail, |pre|) == attributes
    decreases |attributes|
  {
    hide Attributes, EncodeAttribute, Encodable, Pads, RoundUp4, IsStump;
    var data := pre + EncodeAttributes(attributes, pads) + tail;
    if attributes == [] {
      NoAttributes(pre, tail);
      assert data == pre + tail;
    } else {
      var first := EncodeAttribute(attributes[0], pads[0]);
      var rest := EncodeAttributes(attributes[1..], pads[1..]) + tail;
      FirstLayout(attributes[0], pads[0], rest);
      assert data == pre + (first + rest);
      AttributeReadBack(data, pre, attributes[0], pads[0] + rest);
      AttributesRoundTrip(pre + first, attributes[1..], pads[1..], tail);
      assert data == pre + first + EncodeAttributes(attributes[1..], pads[1..]) + tail;
    }
  }

  /** Section 15.1. */
  function MappedAttribute(m: Mapped): (a: Attribute)
    requires m.ip < 0x1_0000_0000 && m.port < 0x1_0000
    ensures Encodable(a)
  {
    Attribute(MAPPED_ADDRESS, [0, FAMILY_IPV4] + Put16(m.port) + Put32(m.ip))
  }

  /** Section 15.2: port and address under the magic cookie. */
  function XorMappedAttribute(m: Mapped): (a: Attribute)
    requires m.ip < 0x1_0000_0000 && m.port < 0x1_0000
    ensures Encodable(a)
  {
    CookieKeepsWidth(m);
    Attribute(XOR_MAPPED_ADDRESS,
              [0, FAMILY_IPV4] + Put16(Xor(m.port, MAGIC_COOKIE / 0x1_0000)) + Put32(Xor(m.ip, MAGIC_COOKIE)))
  }

  function AddressAttribute(m: Mapped, xored: bool): Attribute
    requires m.ip < 0x1_0000_0000 && m.port < 0x1_0000
  {
    if xored then XorMappedAttribute(m) else MappedAttribute(m)
  }

  lemma CookieKeepsWidth(m: Mapped)
    requires m.ip < 0x1_0000_0000 && m.port < 0x1_0000
    ensures Xor(m.port, MAGIC_COOKIE / 0x1_0000) < 0x1_0000 && Xor(m.ip, MAGIC_COOKIE) < 0x1_0000_0000
  {
    hide Xor;
    LargePow2();
    XorStaysBelow(m.port, MAGIC_COOKIE / 0x1_0000, 16);
    XorStaysBelow(m.ip, MAGIC_COOKIE, 32);
  }

  lemma AddressReadBack(kind: nat, port: nat, ip: nat)
    requires ip < 0x1_0000_0000 && port < 0x1_0000
    ensures var v := [0, FAMILY_IPV4] + Put16(port) + Put32(ip);
            |v| == 8 && v[1] == FAMILY_IPV4 && Get16(v[2], v[3]) == port && Get32(v[4..8]) == ip
  {
    var v := [0, FAMILY_IPV4] + Put16(port) + Put32(ip);
    assert v[4..8] == Put32(ip);
    assert v[2] == Put16(port)[0] && v[3] == Put16(port)[1];
  }

  /** The two address attributes decode to the address they encode. */
  lemma AddressOfInverts(m: Mapped)
    requires m.ip < 0x1_0000_0000 && m.port < 0x1_0000
    ensures AddressOf(MappedAttribute(m)) == Some(m)
    ensures AddressOf(XorMappedAttribute(m)) == Some(m)
  {
    hide Xor, Put16, Put32, Get16, Get32;
    CookieKeepsWidth(m);
    AddressReadBack(MAPPED_ADDRESS, m.port, m.ip);
    AddressReadBack(XOR_MAPPED_ADDRESS, Xor(m.port, MAGIC_COOKIE / 0x1_0000), Xor(m.ip, MAGIC_COOKIE));
    XorInverts(m.port, MAGIC_COOKIE / 0x1_0000);
    XorInverts(m.ip, MAGIC_COOKIE);
  }

  lemma SameBytes(a: seq<byte>, b: seq<byte>)
    requires |a| >= 8 && |b| == 8
    ensures a[1..8] == b[1..] <==> a[1] == b[1] && a[2] == b[2] && a[3] == b[3] && a[4..8] == b[4..8]
  {
    if a[1] == b[1] && a[2] == b[2] && a[3] == b[3] && a[4..8] == b[4..8] {
      assert a[1..8] == [a[1], a[2], a[3]] + a[4..8];
      assert b[1..] == [b[1], b[2], b[3]] + b[4..8];
    }
  }

  lemma NumbersReadIff(v: seq<byte>, port: nat, ip: nat)
    requires |v| >= 8 && ip < 0x1_0000_0000 && port < 0x1_0000
    ensures v[1..8] == ([0, FAMILY_IPV4] + Put16(port) + Put32(ip))[1..] <==>
            v[1] == FAMILY_IPV4 && Get16(v[2], v[3]) == port && Get32(v[4..8]) == ip
  {
    hide Get16, Get32, Put16, Put32;
    var w := [0, FAMILY_IPV4] + Put16(port) + Put32(ip);
    AddressReadBack(0, port, ip);
    SameBytes(v, w);
    assert w[4..8] == Put32(ip) && [w[2], w[3]] == Put16(port);
    Put16Inverts(v[2], v[3]);
    Put32Inverts(v[4..8]);
  }

  /** An attribute announces an address exactly when it is of one of the two address types and carries,
      from its second byte on, the encoding of that address for its type; no other type does. */
  lemma AddressOfIff(a: Attribute, m: Mapped)
    requires m.ip < 0x1_0000_0000 && m.port < 0x1_0000
    ensures AddressOf(a) == Some(m) <==>
            && |a.value| >= 8
            && ((a.kind == 0x0020 && a.value[1..8] == XorMappedAttribute(m).value[1..]) ||
                (a.kind == 0x0001 && a.value[1..8] == MappedAttribute(m).value[1..]))
  {
    hide Xor, Put16, Put32, Get16, Get32;
    if |a.value| >= 8 {
      CookieKeepsWidth(m);
      NumbersReadIff(a.value, m.port, m.ip);
      NumbersReadIff(a.value, Xor(m.port, MAGIC_COOKIE / 0x1_0000), Xor(m.ip, MAGIC_COOKIE));
      XorInverts(m.port, MAGIC_COOKIE / 0x1_0000);
      XorInverts(m.ip, MAGIC_COOKIE);
      XorInverts(Get16(a.value[2], a.value[3]), MAGIC_COOKIE / 0x1_0000);
      XorInverts(Get32(a.value[4..8]), MAGIC_COOKIE);
    }
  }

  lemma {:induction false} FirstAddressSkips(before: seq<Attribute>, a: Attribute, after: seq<Attribute>)
    requires forall b :: b in before ==> AddressOf(b) == None
    requires AddressOf(a).Some?
    ensures FirstAddress(before + [a] + after) == AddressOf(a)
  {
    var all := before + [a] + after;
    if before != [] {
      assert all[0] == before[0] && all[1..] == before[1..] + [a] + after;
      FirstAddressSkips(before[1..], a, after);
    }
  }

  /** A response with any header, attributes and padding announces the first IPv4 address in it. */
  lemma ResponseRoundTrip(header: seq<byte>, before: seq<Attribute>, m: Mapped, xored: bool,
                          after: seq<Attribute>, pads: seq<seq<byte>>)
    requires |header| == STUN_HEADER && m.ip < 0x1_0000_0000 && m.port < 0x1_0000
    requires Padded(before + [AddressAttribute(m, xored)] + after, pads)
    requires forall b :: b in before ==> AddressOf(b) == None
    ensures var data := header + EncodeAttributes(before + [AddressAttribute(m, xored)] + after, pads);
            FirstAddress(Attributes(data, STUN_HEADER)) == Some(m)
  {
    hide AddressOf, XorMappedAttribute, MappedAttribute, EncodeAttributes, Attributes, Encodable, FirstAddress, Padded;
    var a := AddressAttribute(m, xored);
    var all := before + [a] + after;
    AddressOfInverts(m);
    AttributesRoundTrip(header, all, pads, []);
    assert header + EncodeAttributes(all, pads) + [] == header + EncodeAttributes(all, pads);
    FirstAddressSkips(before, a, after);
  }
}
