/**
 * Base64 with the standard alphabet and `=` padding, as section 4 of
 * RFC 4648 defines it and as `Buffer.prototype.toString('base64')` writes
 * it; with a strict decoder that accepts exactly the canonical encodings.
 */
module Base64 {
  import opened Wrappers
  import opened JsString
  import opened Arithmetic
  import opened Utf8

  /** The alphabet of RFC 4648 section 4, Table 1: A-Z, a-z, 0-9, '+', '/'. */
  function Char(v: nat): (u: Unit)
    requires v < 64
  {
    if v < 26 then (0x41 + v) as Unit
    else if v < 52 then (0x61 + v - 26) as Unit
    else if v < 62 then (0x30 + v - 52) as Unit
    else if v == 62 then PLUS
    else SLASH
  }

  /** The value of an alphabet character, `None` for anything else (padding included). */
  function CharValue(u: Unit): (r: Option<nat>)
    ensures r.Some? ==> r.value < 64
  {
    if 0x41 <= u <= 0x5A then Some((u - 0x41) as nat)
    else if 0x61 <= u <= 0x7A then Some((u - 0x61 + 26) as nat)
    else if 0x30 <= u <= 0x39 then Some((u - 0x30 + 52) as nat)
    else if u == PLUS then Some(62)
    else if u == SLASH then Some(63)
    else None
  }

  /** A unit that may appear in an encoding: an alphabet character or the pad '='. */
  predicate IsEncodingUnit(u: Unit) {
    CharValue(u).Some? || u == EQUALS
  }

  lemma CharRoundTrip(v: nat)
    requires v < 64
    ensures CharValue(Char(v)) == Some(v)
  {
  }

  lemma CharValueRoundTrip(u: Unit)
    requires CharValue(u).Some?
    ensures Char(CharValue(u).value) == u
  {
  }

  /** Three octets as four characters. */
  function EncodeGroup(b0: Byte, b1: Byte, b2: Byte): Text
  {
    [Char(b0 as nat / 4), Char((b0 as nat % 4) * 16 + b1 as nat / 16),
     Char((b1 as nat % 16) * 4 + b2 as nat / 64), Char(b2 as nat % 64)]
  }

  /** The encoding of a byte string: whole groups, then a final group of one or two octets padded with '='. */
  function Encode(b: seq<Byte>): (t: Text)
    decreases |b|
  {
    if |b| == 0 then []
    else if |b| == 1 then [Char(b[0] as nat / 4), Char((b[0] as nat % 4) * 16), EQUALS, EQUALS]
    else if |b| == 2 then
      [Char(b[0] as nat / 4), Char((b[0] as nat % 4) * 16 + b[1] as nat / 16), Char((b[1] as nat % 16) * 4), EQUALS]
    else EncodeGroup(b[0], b[1], b[2]) + Encode(b[3..])
  }

  /** Four alphabet values as three octets. */
  function DecodeGroup(v0: nat, v1: nat, v2: nat, v3: nat): seq<Byte>
    requires v0 < 64 && v1 < 64 && v2 < 64 && v3 < 64
  {
    [(v0 * 4 + v1 / 16) as Byte, ((v1 % 16) * 16 + v2 / 4) as Byte, ((v2 % 4) * 64 + v3) as Byte]
  }

  /**
   * The strict inverse of `Encode`: four characters at a time, padding only
   * in the last group, and the bits that padding leaves over must be zero
   * (RFC 4648 section 3.5).
   */
  function Decode(t: Text): (r: Option<seq<Byte>>)
    decreases |t|
  {
    if |t| == 0 then Some([])
    else if |t| < 4 || CharValue(t[0]).None? || CharValue(t[1]).None? then None
    else
      var v0, v1 := CharValue(t[0]).value, CharValue(t[1]).value;
      if |t| == 4 && t[2] == EQUALS && t[3] == EQUALS then
        if v1 % 16 == 0 then Some([(v0 * 4 + v1 / 16) as Byte]) else None
      else if CharValue(t[2]).None? then None
      else
        var v2 := CharValue(t[2]).value;
        if |t| == 4 && t[3] == EQUALS then
          if v2 % 4 == 0 then Some([(v0 * 4 + v1 / 16) as Byte, ((v1 % 16) * 16 + v2 / 4) as Byte]) else None
        else if CharValue(t[3]).None? then None
        else
          match Decode(t[4..])
          case None => None
          case Some(rest) => Some(DecodeGroup(v0, v1, v2, CharValue(t[3]).value) + rest)
  }

  /** The encoding has `4 * ceil(n / 3)` units for `n` octets. */
  lemma {:induction false} EncodeLength(b: seq<Byte>)
    ensures |Encode(b)| == 4 * ((|b| + 2) / 3)
  {
    if |b| >= 3 {
      EncodeLength(b[3..]);
      DivMod(|b| + 2, (|b[3..]| + 2) / 3 + 1, (|b[3..]| + 2) % 3, 3);
    }
  }

  /** Every unit of an encoding is an alphabet character or '='. */
  lemma {:induction false} EncodeAlphabet(b: seq<Byte>)
    ensures forall i | 0 <= i < |Encode(b)| :: IsEncodingUnit(Encode(b)[i])
  {
    if |b| >= 3 {
      EncodeAlphabet(b[3..]);
      var t, g := Encode(b), EncodeGroup(b[0], b[1], b[2]);
      forall i | 0 <= i < |t| ensures IsEncodingUnit(t[i]) {
        if i < 4 {
          CharRoundTrip(if i == 0 then b[0] as nat / 4
            else if i == 1 then (b[0] as nat % 4) * 16 + b[1] as nat / 16
            else if i == 2 then (b[1] as nat % 16) * 4 + b[2] as nat / 64
            else b[2] as nat % 64);
        } else {
          assert t[i] == Encode(b[3..])[i - 4];
        }
      }
    } else if |b| == 2 {
      CharRoundTrip(b[0] as nat / 4);
      CharRoundTrip((b[0] as nat % 4) * 16 + b[1] as nat / 16);
      CharRoundTrip((b[1] as nat % 16) * 4);
    } else if |b| == 1 {
      CharRoundTrip(b[0] as nat / 4);
      CharRoundTrip((b[0] as nat % 4) * 16);
    }
  }

  /** An encoding contains neither '.' nor '&'. */
  lemma EncodeLacksSeparators(b: seq<Byte>)
    ensures Lacks(Encode(b), DOT) && Lacks(Encode(b), AMPERSAND)
  {
    EncodeAlphabet(b);
    var t := Encode(b);
    forall i | 0 <= i < |t| ensures t[i] != DOT && t[i] != AMPERSAND {
      assert IsEncodingUnit(t[i]);
    }
  }

  /** The values of a group's characters give its octets back. */
  lemma DecodeEncodeGroup(b0: Byte, b1: Byte, b2: Byte)
    ensures DecodeGroup(b0 as nat / 4, (b0 as nat % 4) * 16 + b1 as nat / 16,
                        (b1 as nat % 16) * 4 + b2 as nat / 64, b2 as nat % 64) == [b0, b1, b2]
  {
    var v1, v2 := (b0 as nat % 4) * 16 + b1 as nat / 16, (b1 as nat % 16) * 4 + b2 as nat / 64;
    DivMod(v1, b0 as nat % 4, b1 as nat / 16, 16);
    DivMod(v2, b1 as nat % 16, b2 as nat / 64, 4);
  }

  /** A final group of one octet decodes back. */
  lemma DecodeEncodeOne(b0: Byte)
    ensures Decode(Encode([b0])) == Some([b0])
  {
    var v0, v1 := b0 as nat / 4, (b0 as nat % 4) * 16;
    CharRoundTrip(v0);
    CharRoundTrip(v1);
    DivMod(v1, b0 as nat % 4, 0, 16);
    assert v0 * 4 + v1 / 16 == b0 as nat;
  }

  /** A final group of two octets decodes back. */
  lemma DecodeEncodeTwo(b0: Byte, b1: Byte)
    ensures Decode(Encode([b0, b1])) == Some([b0, b1])
  {
    var t := Encode([b0, b1]);
    var v0, v1, v2 := b0 as nat / 4, (b0 as nat % 4) * 16 + b1 as nat / 16, (b1 as nat % 16) * 4;
    CharRoundTrip(v0);
    CharRoundTrip(v1);
    CharRoundTrip(v2);
    DivMod(v1, b0 as nat % 4, b1 as nat / 16, 16);
    DivMod(v2, b1 as nat % 16, 0, 4);
    assert t[2] != EQUALS;
    assert v0 * 4 + v1 / 16 == b0 as nat;
    assert (v1 % 16) * 16 + v2 / 4 == b1 as nat;
  }

  /** A group of four alphabet characters in front of more text decodes as a group in front of the rest. */
  lemma DecodeGroupPrefix(g: Text, rest: Text, v0: nat, v1: nat, v2: nat, v3: nat)
    requires v0 < 64 && v1 < 64 && v2 < 64 && v3 < 64
    requires g == [Char(v0), Char(v1), Char(v2), Char(v3)]
    ensures Decode(rest).None? ==> Decode(g + rest).None?
    ensures Decode(rest).Some? ==> Decode(g + rest) == Some(DecodeGroup(v0, v1, v2, v3) + Decode(rest).value)
  {
    var t := g + rest;
    CharRoundTrip(v0);
    CharRoundTrip(v1);
    CharRoundTrip(v2);
    CharRoundTrip(v3);
    assert t[0] == Char(v0) && t[1] == Char(v1) && t[2] == Char(v2) && t[3] == Char(v3);
    assert t[2] != EQUALS && t[3] != EQUALS;
    assert t[4..] == rest;
  }

  /** A whole group in front of decodable text decodes to its octets in front of the rest. */
  lemma DecodeEncodeStep(b0: Byte, b1: Byte, b2: Byte, t: Text, rest: seq<Byte>)
    requires Decode(t) == Some(rest)
    ensures Decode(EncodeGroup(b0, b1, b2) + t) == Some([b0, b1, b2] + rest)
  {
    var v0, v1 := b0 as nat / 4, (b0 as nat % 4) * 16 + b1 as nat / 16;
    var v2, v3 := (b1 as nat % 16) * 4 + b2 as nat / 64, b2 as nat % 64;
    DecodeGroupPrefix(EncodeGroup(b0, b1, b2), t, v0, v1, v2, v3);
    DecodeEncodeGroup(b0, b1, b2);
  }

  /** Decoding an encoding gives the octets back. */
  lemma {:induction false} DecodeEncode(b: seq<Byte>)
    ensures Decode(Encode(b)) == Some(b)
  {
    if |b| == 1 {
      assert b == [b[0]];
      DecodeEncodeOne(b[0]);
    } else if |b| == 2 {
      assert b == [b[0], b[1]];
      DecodeEncodeTwo(b[0], b[1]);
    } else if |b| >= 3 {
      DecodeEncode(b[3..]);
      DecodeEncodeStep(b[0], b[1], b[2], Encode(b[3..]), b[3..]);
      assert Encode(b) == EncodeGroup(b[0], b[1], b[2]) + Encode(b[3..]);
      assert b == [b[0], b[1], b[2]] + b[3..];
    }
  }

  /** Re-encoding the octets of four alphabet values gives the four characters. */
  lemma EncodeDecodeGroup(v0: nat, v1: nat, v2: nat, v3: nat)
    requires v0 < 64 && v1 < 64 && v2 < 64 && v3 < 64
    ensures var g := DecodeGroup(v0, v1, v2, v3);
      EncodeGroup(g[0], g[1], g[2]) == [Char(v0), Char(v1), Char(v2), Char(v3)]
  {
    var b0, b1, b2 := v0 * 4 + v1 / 16, (v1 % 16) * 16 + v2 / 4, (v2 % 4) * 64 + v3;
    DivMod(b0, v0, v1 / 16, 4);
    DivMod(b1, v1 % 16, v2 / 4, 16);
    DivMod(b2, v2 % 4, v3, 64);
    assert (b0 % 4) * 16 + b1 / 16 == v1;
    assert (b1 % 16) * 4 + b2 / 64 == v2;
  }

  /** Padded final groups re-encode to themselves. */
  lemma EncodeDecodeFinal(t: Text)
    requires |t| == 4 && t[3] == EQUALS && Decode(t).Some?
    ensures Encode(Decode(t).value) == t
  {
    var v0, v1 := CharValue(t[0]).value, CharValue(t[1]).value;
    CharValueRoundTrip(t[0]);
    CharValueRoundTrip(t[1]);
    if t[2] == EQUALS {
      assert Decode(t) == Some([(v0 * 4 + v1 / 16) as Byte]);
      EncodeOnePadded(v0, v1);
      assert t == [Char(v0), Char(v1), EQUALS, EQUALS];
    } else {
      var v2 := CharValue(t[2]).value;
      CharValueRoundTrip(t[2]);
      assert Decode(t) == Some([(v0 * 4 + v1 / 16) as Byte, ((v1 % 16) * 16 + v2 / 4) as Byte]);
      EncodeTwoPadded(v0, v1, v2);
      assert t == [Char(v0), Char(v1), Char(v2), EQUALS];
    }
  }

  /** A final group with two pads whose spare bits are zero is the encoding of its one octet. */
  lemma EncodeOnePadded(v0: nat, v1: nat)
    requires v0 < 64 && v1 < 64 && v1 % 16 == 0
    ensures Encode([(v0 * 4 + v1 / 16) as Byte]) == [Char(v0), Char(v1), EQUALS, EQUALS]
  {
    var b0 := v0 * 4 + v1 / 16;
    DivMod(b0, v0, v1 / 16, 4);
    assert (b0 % 4) * 16 == v1;
  }

  /** A final group with one pad whose spare bits are zero is the encoding of its two octets. */
  lemma EncodeTwoPadded(v0: nat, v1: nat, v2: nat)
    requires v0 < 64 && v1 < 64 && v2 < 64 && v2 % 4 == 0
    ensures Encode([(v0 * 4 + v1 / 16) as Byte, ((v1 % 16) * 16 + v2 / 4) as Byte])
         == [Char(v0), Char(v1), Char(v2), EQUALS]
  {
    var b0 := v0 * 4 + v1 / 16;
    DivMod(b0, v0, v1 / 16, 4);
    var b1 := (v1 % 16) * 16 + v2 / 4;
    DivMod(b1, v1 % 16, v2 / 4, 16);
    assert (b0 % 4) * 16 + b1 / 16 == v1;
    assert (b1 % 16) * 4 == v2;
  }

  /** Whatever decodes is the canonical encoding of what it decodes to. */
  lemma {:induction false} EncodeDecode(t: Text)
    requires Decode(t).Some?
    ensures Encode(Decode(t).value) == t
    decreases |t|
  {
    if |t| == 4 && t[3] == EQUALS {
      EncodeDecodeFinal(t);
    } else if |t| > 0 {
      var v0, v1 := CharValue(t[0]).value, CharValue(t[1]).value;
      var v2, v3 := CharValue(t[2]).value, CharValue(t[3]).value;
      var g := DecodeGroup(v0, v1, v2, v3);
      var rest := Decode(t[4..]).value;
      EncodeDecode(t[4..]);
      EncodeDecodeGroup(v0, v1, v2, v3);
      CharValueRoundTrip(t[0]);
      CharValueRoundTrip(t[1]);
      CharValueRoundTrip(t[2]);
      CharValueRoundTrip(t[3]);
      assert Decode(t).value == g + rest;
      assert (g + rest)[3..] == rest;
      assert t == t[..4] + t[4..];
    }
  }

  /** Encoding is injective: different octets never give the same text. */
  lemma EncodeInjective(a: seq<Byte>, b: seq<Byte>)
    requires Encode(a) == Encode(b)
    ensures a == b
  {
    DecodeEncode(a);
    DecodeEncode(b);
  }
}
