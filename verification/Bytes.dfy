/** Byte sequences: slices, big-endian numbers, ASCII and exclusive or. */
module Bytes {
  import opened Networks

  type byte = b: int | 0 <= b < 256

  /** `data[lo:hi]`, which never runs past the end. */
  function Slice(data: seq<byte>, lo: nat, hi: nat): (r: seq<byte>)
    requires lo <= hi
    ensures hi <= |data| ==> r == data[lo..hi]
    ensures |r| == if hi <= |data| then hi - lo else if lo <= |data| then |data| - lo else 0
  {
    if hi <= |data| then data[lo..hi] else if lo <= |data| then data[lo..] else []
  }

  /** A slice from inside the data ends at `hi`, or where the data end. */
  lemma SliceEnds(data: seq<byte>, lo: nat, hi: nat, end: nat)
    requires lo <= |data| && lo <= hi && end == if hi <= |data| then hi else |data|
    ensures Slice(data, lo, hi) == data[lo..end]
  {
    assert data[lo..|data|] == data[lo..];
  }

  function Put16(n: nat): (r: seq<byte>)
    requires n < 0x1_0000
    ensures |r| == 2 && Get16(r[0], r[1]) == n
  {
    [n / 256, n % 256]
  }

  function Get16(high: byte, low: byte): (n: nat)
    ensures n < 0x1_0000
  {
    256 * high + low
  }

  lemma Put16Inverts(high: byte, low: byte)
    ensures Put16(Get16(high, low)) == [high, low]
  {
  }

  function Put32(n: nat): (r: seq<byte>)
    requires n < 0x1_0000_0000
    ensures |r| == 4 && Get32(r) == n
  {
    Put16(n / 0x1_0000) + Put16(n % 0x1_0000)
  }

  function Get32(b: seq<byte>): (n: nat)
    requires |b| == 4
    ensures n < 0x1_0000_0000
  {
    0x1_0000 * Get16(b[0], b[1]) + Get16(b[2], b[3])
  }

  lemma Put32Inverts(b: seq<byte>)
    requires |b| == 4
    ensures Put32(Get32(b)) == b
  {
    hide Get16, Put16;
    var high, low := Get16(b[0], b[1]), Get16(b[2], b[3]);
    assert (0x1_0000 * high + low) / 0x1_0000 == high && (0x1_0000 * high + low) % 0x1_0000 == low;
    Put16Inverts(b[0], b[1]);
    Put16Inverts(b[2], b[3]);
  }

  predicate IsAscii(s: string) {
    forall i :: 0 <= i < |s| ==> (s[i] as int) < 128
  }

  predicate AllBelow128(b: seq<byte>) {
    forall i :: 0 <= i < |b| ==> b[i] < 128
  }

  /** `str.encode("ascii")` on ASCII text. */
  function EncodeAscii(s: string): (b: seq<byte>)
    requires IsAscii(s)
    ensures |b| == |s| && forall i :: 0 <= i < |s| ==> b[i] == s[i] as int
  {
    seq(|s|, i requires 0 <= i < |s| => s[i] as int)
  }

  /** `bytes.decode("ascii", errors="ignore")`: bytes from 128 on are dropped. */
  function DecodeAscii(b: seq<byte>): (s: string)
    ensures IsAscii(s)
    ensures |s| <= |b|
    ensures |s| == |b| <==> AllBelow128(b)
    ensures AllBelow128(b) ==> forall i :: 0 <= i < |b| ==> s[i] == b[i] as char
  {
    if b == [] then ""
    else
      assert b == [b[0]] + b[1..];
      (if b[0] < 128 then [b[0] as char] else "") + DecodeAscii(b[1..])
  }

  /** Decoding goes byte by byte, and what is not ASCII leaves no trace. */
  lemma {:induction false} DecodeAsciiConcat(a: seq<byte>, b: seq<byte>)
    ensures DecodeAscii(a + b) == DecodeAscii(a) + DecodeAscii(b)
  {
    hide DecodeAscii;
    if a == [] {
      assert a + b == b;
    } else {
      assert (a + b)[0] == a[0] && (a + b)[1..] == a[1..] + b;
      DecodeAsciiConcat(a[1..], b);
      DecodeStep(a);
      DecodeStep(a + b);
    }
  }

  lemma DecodeStep(b: seq<byte>)
    requires b != []
    ensures DecodeAscii(b) == DecodeAscii([b[0]]) + DecodeAscii(b[1..])
  {
    DecodeOne(b[0]);
  }

  lemma DecodeOne(x: byte)
    ensures DecodeAscii([x]) == if x < 128 then [x as char] else ""
  {
    assert [x][1..] == [];
  }

  lemma DecodeInvertsEncode(s: string)
    requires IsAscii(s)
    ensures DecodeAscii(EncodeAscii(s)) == s
  {
  }

  lemma EncodeInvertsDecode(b: seq<byte>)
    requires AllBelow128(b)
    ensures EncodeAscii(DecodeAscii(b)) == b
  {
  }

  /** Exclusive or, binary digit by binary digit. */
  function Xor(a: nat, b: nat): nat {
    if a == 0 && b == 0 then 0 else 2 * Xor(a / 2, b / 2) + (a + b) % 2
  }

  lemma XorDigits(a: nat, b: nat)
    ensures Xor(a, b) / 2 == Xor(a / 2, b / 2)
    ensures Xor(a, b) % 2 == (a + b) % 2
  {
  }

  lemma ParityCancels(a: nat, b: nat, x: nat)
    requires x % 2 == (a + b) % 2
    ensures (x + b) % 2 == a % 2
  {
  }

  /** Applying the same mask twice gives the number back. */
  lemma {:induction false} XorInverts(a: nat, b: nat)
    ensures Xor(Xor(a, b), b) == a
    decreases a + b
  {
    if a != 0 || b != 0 {
      var x := Xor(a, b);
      XorInverts(a / 2, b / 2);
      XorDigits(a, b);
      XorDigits(x, b);
      ParityCancels(a, b, x);
    }
  }

  lemma {:induction false} XorStaysBelow(a: nat, b: nat, k: nat)
    requires a < Pow2(k) && b < Pow2(k)
    ensures Xor(a, b) < Pow2(k)
    decreases k
  {
    if k > 0 {
      XorStaysBelow(a / 2, b / 2, k - 1);
    }
  }
}
