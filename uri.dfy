/**
 * `decodeURIComponent`, after the Decode abstract operation of ECMA-262
 * (section 19.2.6.6 of ECMAScript 2023) with an empty reserved set: every
 * `%XY` escape is read as an octet, the octets of one UTF-8 sequence are
 * gathered by the count of leading one bits of the first, and an escape that
 * is malformed or a sequence that is not valid UTF-8 raises a URIError,
 * modelled as `None`.
 */
module Uri {
  import opened Wrappers
  import opened JsString
  import opened Hex
  import opened Utf8
  import Utf16

  /** The octet written by a well-formed escape `%XY` starting at `p`, if there is one. */
  function EscapeAt(s: Text, p: nat): (r: Option<Byte>)
    ensures r.Some? ==> p + 3 <= |s|
  {
    if p + 2 < |s| && s[p] == PERCENT && IsHexDigit(s[p + 1]) && IsHexDigit(s[p + 2])
    then Some((DigitValue(s[p + 1]) * 16 + DigitValue(s[p + 2])) as Byte)
    else None
  }

  /** The octets of `m` consecutive escapes starting at `p`. */
  function Escapes(s: Text, p: nat, m: nat): (r: Option<seq<Byte>>)
    ensures r.Some? ==> |r.value| == m && (m > 0 ==> p + 3 * m <= |s|)
    decreases m
  {
    if m == 0 then Some([])
    else
      match EscapeAt(s, p)
      case None => None
      case Some(b) =>
        match Escapes(s, p + 3, m - 1)
        case None => None
        case Some(bs) => Some([b] + bs)
  }

  /** Prefixes decoded text to the rest of a decoding, keeping a failure. */
  function Prepend(t: Text, r: Option<Text>): Option<Text>
  {
    match r
    case None => None
    case Some(rest) => Some(t + rest)
  }

  /** The decoding of `s` from position `k` on. */
  function DecodeFrom(s: Text, k: nat): Option<Text>
    requires k <= |s|
    decreases |s| - k
  {
    if k == |s| then Some([])
    else if s[k] != PERCENT then Prepend([s[k]], DecodeFrom(s, k + 1))
    else
      match EscapeAt(s, k)
      case None => None
      case Some(b) =>
        var n := LeadingOnes(b);
        if n == 0 then Prepend([b as int as Unit], DecodeFrom(s, k + 3))
        else if n == 1 || n > 4 then None
        else
          match Escapes(s, k + 3, n - 1)
          case None => None
          case Some(tail) =>
            var octets := [b] + tail;
            if !WellFormedChar(octets) then None
            else Prepend(CharUnits(octets), DecodeFrom(s, k + 3 * n))
  }

  /** The code units of the character a well-formed octet sequence encodes. */
  function CharUnits(octets: seq<Byte>): (r: Text)
    requires WellFormedChar(octets)
    ensures |octets| == 1 ==> r == [octets[0] as int as Unit]
  {
    WellFormedIsEncoding(octets);
    Utf16.EncodeCodePoint(Value(octets))
  }

  /** The code units of one octet sequence, `None` when it is not well-formed. */
  function SequenceUnits(octets: seq<Byte>): Option<Text>
  {
    if WellFormedChar(octets) then Some(CharUnits(octets)) else None
  }

  /** Prefixes optional text to the rest of a decoding; either failure fails. */
  function PrependIf(u: Option<Text>, r: Option<Text>): Option<Text>
  {
    match u
    case None => None
    case Some(t) => Prepend(t, r)
  }

  function DecodeURIComponent(s: Text): Option<Text>
  {
    DecodeFrom(s, 0)
  }

  /** UTF-8 decoding of a byte string into a JavaScript string. */
  function DecodeUtf8(b: seq<Byte>): Option<Text>
  {
    match Utf8.Decode(b)
    case None => None
    case Some(cps) => Some(Utf16.Encode(cps))
  }

  /** The escape `%XY` for one octet, with lower-case digits. */
  function EscapeByte(b: Byte): Text
  {
    [PERCENT, Digit(b as nat / 16), Digit(b as nat % 16)]
  }

  /** The concatenated escapes of a byte string. */
  function EscapeBytes(b: seq<Byte>): (s: Text)
    ensures |s| == 3 * |b|
  {
    if b == [] then [] else EscapeByte(b[0]) + EscapeBytes(b[1..])
  }

  lemma EscapeBytesCons(x: Byte, rest: seq<Byte>)
    ensures EscapeBytes([x] + rest) == EscapeByte(x) + EscapeBytes(rest)
  {
    assert ([x] + rest)[1..] == rest;
  }

  /** Text without `%` decodes to itself. */
  lemma {:induction false} DecodeWithoutEscapes(s: Text, k: nat)
    requires k <= |s| && Lacks(s, PERCENT)
    ensures DecodeFrom(s, k) == Some(s[k..])
    decreases |s| - k
  {
    if k < |s| {
      DecodeWithoutEscapes(s, k + 1);
      assert s[k..] == [s[k]] + s[k + 1..];
    } else {
      assert s[k..] == [];
    }
  }

  /** The units of the escape of octet `b[j]`. */
  lemma {:induction false} EscapeBytesAt(b: seq<Byte>, j: nat)
    requires j < |b|
    ensures EscapeBytes(b)[3 * j] == PERCENT
    ensures EscapeBytes(b)[3 * j + 1] == Digit(b[j] as nat / 16)
    ensures EscapeBytes(b)[3 * j + 2] == Digit(b[j] as nat % 16)
  {
    if j > 0 {
      EscapeBytesAt(b[1..], j - 1);
      assert EscapeBytes(b) == EscapeByte(b[0]) + EscapeBytes(b[1..]);
    }
  }

  /** An escape written with the two digits of an octet reads back as that octet. */
  lemma EscapeAtDigits(s: Text, p: nat, x: Byte)
    requires p + 2 < |s| && s[p] == PERCENT
    requires s[p + 1] == Digit(x as nat / 16) && s[p + 2] == Digit(x as nat % 16)
    ensures EscapeAt(s, p) == Some(x)
  {
    DigitRoundTrip(x as nat / 16);
    DigitRoundTrip(x as nat % 16);
  }

  /** `s` consists of one well-formed escape per octet of `b`, in order. */
  predicate EscapesOf(s: Text, b: seq<Byte>) {
    |s| == 3 * |b| && forall j | 0 <= j < |b| :: s[3 * j] == PERCENT && EscapeAt(s, 3 * j) == Some(b[j])
  }

  /** `EscapeBytes(b)` is such a text: reading the escape of octet `b[j]` gives `b[j]`. */
  lemma EscapeBytesEscapes(b: seq<Byte>)
    ensures EscapesOf(EscapeBytes(b), b)
  {
    forall j | 0 <= j < |b|
      ensures EscapeBytes(b)[3 * j] == PERCENT && EscapeAt(EscapeBytes(b), 3 * j) == Some(b[j])
    {
      EscapeBytesAt(b, j);
      EscapeAtDigits(EscapeBytes(b), 3 * j, b[j]);
    }
  }

  /** Reading `m` escapes from octet `j` on gives `b[j..e]` for `e == j + m`, or fails when they run past the end. */
  lemma {:induction false} EscapesEscaped(s: Text, b: seq<Byte>, j: nat, m: nat, e: nat)
    requires EscapesOf(s, b) && j <= |b| && e == j + m
    ensures e <= |b| ==> Escapes(s, 3 * j, m) == Some(b[j..e])
    ensures e > |b| ==> Escapes(s, 3 * j, m) == None
    decreases m
  {
    if m > 0 && j < |b| {
      EscapesEscaped(s, b, j + 1, m - 1, e);
      assert 3 * j + 3 == 3 * (j + 1);
      assert EscapeAt(s, 3 * j) == Some(b[j]);
      if e <= |b| {
        assert b[j..e] == [b[j]] + b[j + 1..e];
      }
    } else if m == 0 {
      assert b[j..e] == [];
    } else {
      assert EscapeAt(s, 3 * j) == None;
    }
  }

  /** One step of UTF-8 decoding, in the shape of one step of `DecodeFrom`. */
  lemma DecodeUtf8Step(rest: seq<Byte>)
    requires rest != []
    ensures var n := SequenceLength(rest[0]);
      if n == 0 || |rest| < n || !WellFormedChar(rest[..n]) then DecodeUtf8(rest) == None
      else DecodeUtf8(rest) == Prepend(CharUnits(rest[..n]), DecodeUtf8(rest[n..]))
  {
    var n := SequenceLength(rest[0]);
    if n != 0 && |rest| >= n && WellFormedChar(rest[..n]) {
      WellFormedIsEncoding(rest[..n]);
      match Utf8.Decode(rest[n..])
      case None =>
      case Some(cps) =>
        var v := Value(rest[..n]);
        assert Utf8.Decode(rest) == Some([v] + cps);
        assert ([v] + cps)[1..] == cps;
    }
  }

  /** One step of `DecodeFrom` at an escape of a lead octet, with its continuation escapes read. */
  lemma DecodeFromMulti(s: Text, k: nat, x: Byte, n: nat, p: nat, tail: Option<seq<Byte>>, next: nat)
    requires k < |s| && s[k] == PERCENT && EscapeAt(s, k) == Some(x)
    requires n == LeadingOnes(x) && 2 <= n <= 4
    requires p == k + 3 && Escapes(s, p, n - 1) == tail && next == k + 3 * n
    ensures tail.None? ==> DecodeFrom(s, k) == None
    ensures tail.Some? ==>
      next <= |s| && DecodeFrom(s, k) == PrependIf(SequenceUnits([x] + tail.value), DecodeFrom(s, next))
  {
  }

  /** The step at the escape of an ASCII octet `b[i]`, given the decoding from the next escape on. */
  lemma DecodeEscapedAscii(s: Text, b: seq<Byte>, i: nat)
    requires |s| == 3 * |b| && i < |b| && LeadingOnes(b[i]) == 0
    requires s[3 * i] == PERCENT && EscapeAt(s, 3 * i) == Some(b[i])
    requires DecodeFrom(s, 3 * (i + 1)) == DecodeUtf8(b[i + 1..])
    ensures DecodeFrom(s, 3 * i) == DecodeUtf8(b[i..])
  {
    var rest := b[i..];
    assert 3 * i + 3 == 3 * (i + 1);
    assert DecodeFrom(s, 3 * i) == Prepend([b[i] as int as Unit], DecodeFrom(s, 3 * (i + 1)));
    assert rest[..1] == [b[i]] && rest[1..] == b[i + 1..];
    DecodeUtf8Step(rest);
  }

  /** The step at the escape of the lead octet `b[i]` of a two- to four-octet sequence. */
  lemma DecodeEscapedMulti(s: Text, b: seq<Byte>, i: nat, n: nat, j: nat, e: nat)
    requires |s| == 3 * |b| && i < |b| && n == LeadingOnes(b[i]) && 2 <= n <= 4 && j == i + 1 && e == i + n
    requires s[3 * i] == PERCENT && EscapeAt(s, 3 * i) == Some(b[i])
    requires e <= |b| ==> Escapes(s, 3 * j, n - 1) == Some(b[j..e])
    requires e > |b| ==> Escapes(s, 3 * j, n - 1) == None
    requires e <= |b| ==> DecodeFrom(s, 3 * e) == DecodeUtf8(b[e..])
    ensures DecodeFrom(s, 3 * i) == DecodeUtf8(b[i..])
  {
    var k, p := 3 * i, 3 * j;
    if e <= |b| {
      DecodeEscapedWhole(s, b, i, k, n, p, b[j..e], 3 * e);
    } else {
      DecodeEscapedCut(s, b, i, k, n, p);
    }
  }

  /** The step at a lead octet whose continuation octets are all present. */
  lemma DecodeEscapedWhole(s: Text, b: seq<Byte>, i: nat, k: nat, n: nat, p: nat, tail: seq<Byte>, next: nat)
    requires |s| == 3 * |b| && i < |b| && k == 3 * i && p == k + 3 && next == k + 3 * n
    requires n == LeadingOnes(b[i]) && 2 <= n <= 4 && i + n <= |b|
    requires s[k] == PERCENT && EscapeAt(s, k) == Some(b[i])
    requires Escapes(s, p, n - 1) == Some(tail) && tail == b[i + 1..i + n]
    requires next <= |s| && DecodeFrom(s, next) == DecodeUtf8(b[i + n..])
    ensures DecodeFrom(s, k) == DecodeUtf8(b[i..])
  {
    DecodeFromMulti(s, k, b[i], n, p, Some(tail), next);
    DecodeSequenceStep(b, i, n, tail);
  }

  /** The step at a lead octet whose sequence runs past the end: both sides fail. */
  lemma DecodeEscapedCut(s: Text, b: seq<Byte>, i: nat, k: nat, n: nat, p: nat)
    requires |s| == 3 * |b| && i < |b| && k == 3 * i && p == k + 3
    requires n == LeadingOnes(b[i]) && 2 <= n <= 4 && i + n > |b|
    requires s[k] == PERCENT && EscapeAt(s, k) == Some(b[i])
    requires Escapes(s, p, n - 1) == None
    ensures DecodeFrom(s, k) == None && DecodeUtf8(b[i..]) == None
  {
    DecodeFromMulti(s, k, b[i], n, p, None, k + 3 * n);
    DecodeUtf8Step(b[i..]);
  }

  /** UTF-8 decoding from `b[i]`, a lead octet announcing `n` octets that are all present. */
  lemma DecodeSequenceStep(b: seq<Byte>, i: nat, n: nat, tail: seq<Byte>)
    requires 2 <= n <= 4 && i + n <= |b| && LeadingOnes(b[i]) == n && tail == b[i + 1..i + n]
    ensures DecodeUtf8(b[i..]) == PrependIf(SequenceUnits([b[i]] + tail), DecodeUtf8(b[i + n..]))
  {
    var rest := b[i..];
    assert [b[i]] + tail == rest[..n];
    assert rest[n..] == b[i + n..];
    DecodeUtf8Step(rest);
  }

  /** From the escape of octet `i` on, decoding the escapes is UTF-8 decoding of `b[i..]`. */
  lemma {:induction false} DecodeEscapedFrom(s: Text, b: seq<Byte>, i: nat)
    requires EscapesOf(s, b) && i <= |b|
    ensures DecodeFrom(s, 3 * i) == DecodeUtf8(b[i..])
    decreases |b| - i
  {
    if i < |b| {
      var n := LeadingOnes(b[i]);
      assert s[3 * i] == PERCENT && EscapeAt(s, 3 * i) == Some(b[i]);
      if n == 0 {
        DecodeEscapedFrom(s, b, i + 1);
        DecodeEscapedAscii(s, b, i);
      } else if 2 <= n <= 4 {
        var j, e := i + 1, i + n;
        EscapesEscaped(s, b, j, n - 1, e);
        if e <= |b| {
          DecodeEscapedFrom(s, b, e);
        }
        DecodeEscapedMulti(s, b, i, n, j, e);
      } else {
        DecodeUtf8Step(b[i..]);
      }
    }
  }

  /** Decoding the escapes of a byte string is UTF-8 decoding of the bytes. */
  lemma DecodeEscaped(b: seq<Byte>)
    ensures DecodeURIComponent(EscapeBytes(b)) == DecodeUtf8(b)
  {
    EscapeBytesEscapes(b);
    DecodeEscapedFrom(EscapeBytes(b), b, 0);
  }
}
