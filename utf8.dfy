/**
 * UTF-8 as RFC 3629 defines it: the encoding of one Unicode scalar value
 * (section 3), the syntax of well-formed octet sequences (section 4), and
 * a decoder for whole byte strings that rejects every ill-formed sequence.
 */
module Utf8 {
  import opened Wrappers
  import opened Arithmetic

  newtype Byte = x: int | 0 <= x < 0x100

  /** A Unicode scalar value: a code point that is not a surrogate. */
  predicate IsScalar(v: int) {
    0 <= v < 0x11_0000 && !(0xD800 <= v < 0xE000)
  }

  /** `UTF8-tail = %x80-BF`. */
  predicate IsTail(b: Byte) {
    0x80 <= b < 0xC0
  }

  /** The number of leading one bits of an octet. */
  function LeadingOnes(b: Byte): (n: nat)
    ensures n <= 8
  {
    if b < 0x80 then 0
    else if b < 0xC0 then 1
    else if b < 0xE0 then 2
    else if b < 0xF0 then 3
    else if b < 0xF8 then 4
    else if b < 0xFC then 5
    else if b < 0xFE then 6
    else if b < 0xFF then 7
    else 8
  }

  /** The UTF-8 encoding of one scalar value (RFC 3629 section 3). */
  function EncodeScalar(v: int): (o: seq<Byte>)
    requires IsScalar(v)
    ensures 1 <= |o| <= 4
  {
    if v < 0x80 then
      [v as Byte]
    else if v < 0x800 then
      [(0xC0 + v / 0x40) as Byte, (0x80 + v % 0x40) as Byte]
    else if v < 0x1_0000 then
      [(0xE0 + v / 0x1000) as Byte, (0x80 + (v / 0x40) % 0x40) as Byte, (0x80 + v % 0x40) as Byte]
    else
      [(0xF0 + v / 0x4_0000) as Byte, (0x80 + (v / 0x1000) % 0x40) as Byte,
       (0x80 + (v / 0x40) % 0x40) as Byte, (0x80 + v % 0x40) as Byte]
  }

  /** `UTF8-char` of RFC 3629 section 4: the one-, two-, three- and four-octet well-formed sequences. */
  predicate WellFormedChar(o: seq<Byte>) {
    (|o| == 1 && o[0] < 0x80) ||
    (|o| == 2 && 0xC2 <= o[0] <= 0xDF && IsTail(o[1])) ||
    (|o| == 3 &&
      ((o[0] == 0xE0 && 0xA0 <= o[1] <= 0xBF) ||
       (0xE1 <= o[0] <= 0xEC && IsTail(o[1])) ||
       (o[0] == 0xED && 0x80 <= o[1] <= 0x9F) ||
       (0xEE <= o[0] <= 0xEF && IsTail(o[1]))) &&
      IsTail(o[2])) ||
    (|o| == 4 &&
      ((o[0] == 0xF0 && 0x90 <= o[1] <= 0xBF) ||
       (0xF1 <= o[0] <= 0xF3 && IsTail(o[1])) ||
       (o[0] == 0xF4 && 0x80 <= o[1] <= 0x8F)) &&
      IsTail(o[2]) && IsTail(o[3]))
  }

  /** The value carried by the payload bits of a sequence of one to four octets. */
  function Value(o: seq<Byte>): int
    requires 1 <= |o| <= 4
  {
    if |o| == 1 then o[0] as int
    else if |o| == 2 then (o[0] as int % 0x20) * 0x40 + o[1] as int % 0x40
    else if |o| == 3 then (o[0] as int % 0x10) * 0x1000 + (o[1] as int % 0x40) * 0x40 + o[2] as int % 0x40
    else (o[0] as int % 0x08) * 0x4_0000 + (o[1] as int % 0x40) * 0x1000 + (o[2] as int % 0x40) * 0x40 + o[3] as int % 0x40
  }

  /** Encoding a scalar value gives a well-formed sequence that carries that value. */
  lemma EncodeScalarWellFormed(v: int)
    requires IsScalar(v)
    ensures WellFormedChar(EncodeScalar(v))
    ensures Value(EncodeScalar(v)) == v
  {
    if 0x80 <= v < 0x800 {
      EncodeTwo(v);
    } else if 0x800 <= v < 0x1_0000 {
      EncodeThree(v);
    } else if v >= 0x1_0000 {
      EncodeFour(v);
    }
  }

  lemma EncodeTwo(v: int)
    requires IsScalar(v) && 0x80 <= v < 0x800
    ensures WellFormedChar(EncodeScalar(v)) && Value(EncodeScalar(v)) == v
  {
    var o := EncodeScalar(v);
    DivMod(o[0] as int, 6, v / 0x40, 0x20);
    DivMod(o[1] as int, 2, v % 0x40, 0x40);
  }

  lemma EncodeThree(v: int)
    requires IsScalar(v) && 0x800 <= v < 0x1_0000
    ensures WellFormedChar(EncodeScalar(v)) && Value(EncodeScalar(v)) == v
  {
    var o := EncodeScalar(v);
    var d3, t1 := v % 0x40, v / 0x40;
    var d2, t2 := t1 % 0x40, t1 / 0x40;
    DivMod(v, t2, d2 * 0x40 + d3, 0x1000);
    DivMod(o[0] as int, 14, t2, 0x10);
    DivMod(o[1] as int, 2, d2, 0x40);
    DivMod(o[2] as int, 2, d3, 0x40);
  }

  lemma EncodeFour(v: int)
    requires IsScalar(v) && 0x1_0000 <= v
    ensures WellFormedChar(EncodeScalar(v)) && Value(EncodeScalar(v)) == v
  {
    var o := EncodeScalar(v);
    var d3, t1 := v % 0x40, v / 0x40;
    var d2, t2 := t1 % 0x40, t1 / 0x40;
    var d1, t3 := t2 % 0x40, t2 / 0x40;
    DivMod(v, t2, d2 * 0x40 + d3, 0x1000);
    DivMod(v, t3, d1 * 0x1000 + d2 * 0x40 + d3, 0x4_0000);
    DivMod(o[0] as int, 30, t3, 0x08);
    DivMod(o[1] as int, 2, d1, 0x40);
    DivMod(o[2] as int, 2, d2, 0x40);
    DivMod(o[3] as int, 2, d3, 0x40);
  }

  /** Every well-formed sequence is the encoding of the scalar value it carries. */
  lemma WellFormedIsEncoding(o: seq<Byte>)
    requires WellFormedChar(o)
    ensures IsScalar(Value(o))
    ensures EncodeScalar(Value(o)) == o
  {
    if |o| == 2 {
      WellFormedTwo(o);
    } else if |o| == 3 {
      WellFormedThree(o);
    } else if |o| == 4 {
      WellFormedFour(o);
    }
  }

  lemma WellFormedTwo(o: seq<Byte>)
    requires |o| == 2 && WellFormedChar(o)
    ensures IsScalar(Value(o)) && EncodeScalar(Value(o)) == o
  {
    var v := Value(o);
    var c0, c1 := o[0] as int - 0xC0, o[1] as int - 0x80;
    PayloadBits(o[0], 0xC0, 0x20);
    PayloadBits(o[1], 0x80, 0x40);
    DivMod(v, c0, c1, 0x40);
  }

  lemma WellFormedThree(o: seq<Byte>)
    requires |o| == 3 && WellFormedChar(o)
    ensures IsScalar(Value(o)) && EncodeScalar(Value(o)) == o
  {
    var v := Value(o);
    var c0, c1, c2 := o[0] as int - 0xE0, o[1] as int - 0x80, o[2] as int - 0x80;
    PayloadBits(o[0], 0xE0, 0x10);
    PayloadBits(o[1], 0x80, 0x40);
    PayloadBits(o[2], 0x80, 0x40);
    ThreeDigits(v, c0, c1, c2);
    var e := EncodeScalar(v);
    assert e[0] == o[0] && e[1] == o[1] && e[2] == o[2];
  }

  /** The base-64 digits of a value written with three of them. */
  lemma ThreeDigits(v: int, c0: int, c1: int, c2: int)
    requires 0 <= c0 < 0x10 && 0 <= c1 < 0x40 && 0 <= c2 < 0x40
    requires v == c0 * 0x1000 + c1 * 0x40 + c2
    ensures v / 0x1000 == c0 && (v / 0x40) % 0x40 == c1 && v % 0x40 == c2
  {
    DivMod(v, c0 * 0x40 + c1, c2, 0x40);
    DivMod(c0 * 0x40 + c1, c0, c1, 0x40);
    DivMod(v, c0, c1 * 0x40 + c2, 0x1000);
  }

  lemma WellFormedFour(o: seq<Byte>)
    requires |o| == 4 && WellFormedChar(o)
    ensures IsScalar(Value(o)) && EncodeScalar(Value(o)) == o
  {
    var v := Value(o);
    var c0, c1, c2, c3 := o[0] as int - 0xF0, o[1] as int - 0x80, o[2] as int - 0x80, o[3] as int - 0x80;
    PayloadBits(o[0], 0xF0, 0x08);
    PayloadBits(o[1], 0x80, 0x40);
    PayloadBits(o[2], 0x80, 0x40);
    PayloadBits(o[3], 0x80, 0x40);
    FourDigits(v, c0, c1, c2, c3);
    var e := EncodeScalar(v);
    assert e[0] == o[0] && e[1] == o[1] && e[2] == o[2] && e[3] == o[3];
  }

  /** The payload bits of an octet of the form `base + x` with `x < size`, where `base` is a multiple of `size`. */
  lemma PayloadBits(b: Byte, base: int, size: int)
    requires size > 0 && base % size == 0 && base <= b as int < base + size
    ensures b as int % size == b as int - base
  {
    DivMod(b as int, base / size, b as int - base, size);
  }

  /** The base-64 digits of a value written with four of them. */
  lemma FourDigits(v: int, c0: int, c1: int, c2: int, c3: int)
    requires 0 <= c0 < 0x08 && 0 <= c1 < 0x40 && 0 <= c2 < 0x40 && 0 <= c3 < 0x40
    requires v == c0 * 0x4_0000 + c1 * 0x1000 + c2 * 0x40 + c3
    ensures v / 0x4_0000 == c0 && (v / 0x1000) % 0x40 == c1 && (v / 0x40) % 0x40 == c2 && v % 0x40 == c3
  {
    DivMod(v, c0 * 0x1000 + c1 * 0x40 + c2, c3, 0x40);
    DivMod(c0 * 0x1000 + c1 * 0x40 + c2, c0 * 0x40 + c1, c2, 0x40);
    DivMod(v, c0 * 0x40 + c1, c2 * 0x40 + c3, 0x1000);
    DivMod(c0 * 0x40 + c1, c0, c1, 0x40);
    DivMod(v, c0, c1 * 0x1000 + c2 * 0x40 + c3, 0x4_0000);
  }

  /**
   * The number of octets a lead octet announces, or 0 when it cannot start a
   * sequence: a continuation octet (one leading one bit) or more than four
   * leading one bits.
   */
  function SequenceLength(lead: Byte): nat
  {
    var ones := LeadingOnes(lead);
    if ones == 0 then 1 else if ones == 1 || ones > 4 then 0 else ones
  }

  /** A well-formed sequence is as long as its lead octet announces. */
  lemma WellFormedLength(o: seq<Byte>)
    requires WellFormedChar(o)
    ensures SequenceLength(o[0]) == |o|
  {
  }

  /** The UTF-8 encoding of a sequence of scalar values. */
  function Encode(cps: seq<int>): (b: seq<Byte>)
    requires forall i | 0 <= i < |cps| :: IsScalar(cps[i])
  {
    if cps == [] then [] else EncodeScalar(cps[0]) + Encode(cps[1..])
  }

  /**
   * Decodes a byte string into scalar values, octet sequence by octet
   * sequence; `None` when some sequence is not well-formed in the sense of
   * RFC 3629 section 4 (a stray continuation octet, a truncated sequence, an
   * overlong form, a surrogate, a value above U+10FFFF).
   */
  function Decode(b: seq<Byte>): (r: Option<seq<int>>)
    ensures r.Some? ==> forall i | 0 <= i < |r.value| :: IsScalar(r.value[i])
    decreases |b|
  {
    if b == [] then Some([])
    else
      var n := SequenceLength(b[0]);
      if n == 0 || |b| < n || !WellFormedChar(b[..n]) then None
      else
        match Decode(b[n..])
        case None => None
        case Some(rest) =>
          WellFormedIsEncoding(b[..n]);
          Some([Value(b[..n])] + rest)
  }

  /** Decoding the encoding of scalar values gives them back. */
  lemma {:induction false} DecodeEncode(cps: seq<int>)
    requires forall i | 0 <= i < |cps| :: IsScalar(cps[i])
    ensures Decode(Encode(cps)) == Some(cps)
  {
    if cps != [] {
      var o, b := EncodeScalar(cps[0]), Encode(cps);
      EncodeScalarWellFormed(cps[0]);
      WellFormedLength(o);
      assert b[..|o|] == o && b[|o|..] == Encode(cps[1..]);
      DecodeEncode(cps[1..]);
      assert [cps[0]] + cps[1..] == cps;
    }
  }

  /** One decoding step: a decodable string is a well-formed sequence in front of a decodable rest. */
  lemma DecodeCons(b: seq<Byte>)
    requires b != [] && Decode(b).Some?
    ensures SequenceLength(b[0]) != 0 && SequenceLength(b[0]) <= |b|
    ensures WellFormedChar(b[..SequenceLength(b[0])]) && Decode(b[SequenceLength(b[0])..]).Some?
    ensures Decode(b).value == [Value(b[..SequenceLength(b[0])])] + Decode(b[SequenceLength(b[0])..]).value
  {
  }

  /** Encoding the value a well-formed sequence carries in front of other values re-creates the sequence. */
  lemma EncodeCons(o: seq<Byte>, rest: seq<int>, tail: seq<Byte>)
    requires WellFormedChar(o) && (forall i | 0 <= i < |rest| :: IsScalar(rest[i])) && Encode(rest) == tail
    ensures IsScalar(Value(o)) && Encode([Value(o)] + rest) == o + tail
  {
    WellFormedIsEncoding(o);
    assert ([Value(o)] + rest)[1..] == rest;
  }

  lemma TakeDrop(b: seq<Byte>, n: nat)
    requires n <= |b|
    ensures b[..n] + b[n..] == b
  {
  }

  /** A byte string that decodes is the encoding of what it decodes to. */
  lemma {:induction false} EncodeDecode(b: seq<Byte>)
    requires Decode(b).Some?
    ensures Encode(Decode(b).value) == b
  {
    if b != [] {
      DecodeCons(b);
      var n := SequenceLength(b[0]);
      EncodeDecode(b[n..]);
      EncodeCons(b[..n], Decode(b[n..]).value, b[n..]);
      TakeDrop(b, n);
    }
  }

  /** ASCII bytes decode to themselves. */
  lemma {:induction false} DecodeAscii(b: seq<Byte>)
    requires forall i | 0 <= i < |b| :: b[i] < 0x80
    ensures Decode(b).Some? && |Decode(b).value| == |b|
    ensures forall i | 0 <= i < |b| :: Decode(b).value[i] == b[i] as int
  {
    if b != [] {
      DecodeAscii(b[1..]);
      assert b[..1] == [b[0]];
    }
  }

  /**
   * An octet of 0x80 or above with no other such octet on either side (a
   * Latin-1 or stray continuation byte among ASCII) makes decoding fail.
   */
  lemma {:induction false} LoneHighByteRejected(b: seq<Byte>, i: nat)
    requires i < |b| && b[i] >= 0x80
    requires i + 1 == |b| || b[i + 1] < 0x80
    requires i == 0 || b[i - 1] < 0x80
    ensures Decode(b) == None
  {
    var n := SequenceLength(b[0]);
    if n != 0 && |b| >= n && WellFormedChar(b[..n]) {
      if 0 < i && n <= i {
        LoneHighByteRejected(b[n..], i - n);
      }
    }
  }
}
