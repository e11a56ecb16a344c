/**
 * UTF-16 as JavaScript strings use it: the encoding of a code point as one
 * unit or a surrogate pair, well-formedness, and the replacement of lone
 * surrogates by U+FFFD that a round trip through a UTF-8 buffer performs.
 */
module Utf16 {
  import opened JsString

  const REPLACEMENT: Unit := 0xFFFD

  predicate IsHighSurrogate(u: Unit) {
    0xD800 <= u < 0xDC00
  }

  predicate IsLowSurrogate(u: Unit) {
    0xDC00 <= u < 0xE000
  }

  predicate IsSurrogate(u: Unit) {
    IsHighSurrogate(u) || IsLowSurrogate(u)
  }

  /** The unit at `i` is not half of a broken pair. */
  predicate PairedAt(s: Text, i: nat)
    requires i < |s|
  {
    (IsHighSurrogate(s[i]) ==> i + 1 < |s| && IsLowSurrogate(s[i + 1])) &&
    (IsLowSurrogate(s[i]) ==> 0 < i && IsHighSurrogate(s[i - 1]))
  }

  /** Every high surrogate is followed by a low one and every low surrogate follows a high one. */
  predicate WellFormed(s: Text) {
    forall i | 0 <= i < |s| :: PairedAt(s, i)
  }

  /** UTF16EncodeCodePoint of ECMA-262: one unit below U+10000, a surrogate pair above. */
  function EncodeCodePoint(v: int): (r: Text)
    requires 0 <= v < 0x11_0000
    ensures v < 0x1_0000 ==> r == [v as Unit]
    ensures v >= 0x1_0000 ==> |r| == 2 && IsHighSurrogate(r[0]) && IsLowSurrogate(r[1])
  {
    if v < 0x1_0000 then [v as Unit]
    else [(0xD800 + (v - 0x1_0000) / 0x400) as Unit, (0xDC00 + (v - 0x1_0000) % 0x400) as Unit]
  }

  /** The UTF-16 encoding of a sequence of code points. */
  function Encode(cps: seq<int>): Text
    requires forall i | 0 <= i < |cps| :: 0 <= cps[i] < 0x11_0000
  {
    if cps == [] then [] else EncodeCodePoint(cps[0]) + Encode(cps[1..])
  }

  /** Code points below U+10000 are their own encoding, one unit each. */
  lemma {:induction false} EncodeBasic(cps: seq<int>)
    requires forall i | 0 <= i < |cps| :: 0 <= cps[i] < 0x1_0000
    ensures |Encode(cps)| == |cps|
    ensures forall i | 0 <= i < |cps| :: Encode(cps)[i] as int == cps[i]
  {
    if cps != [] {
      EncodeBasic(cps[1..]);
    }
  }

  /**
   * `Buffer.from(s).toString()`: encoding to UTF-8 writes each lone surrogate
   * as the octets of U+FFFD, so decoding back yields `s` with every lone
   * surrogate replaced by U+FFFD (String.prototype.toWellFormed).
   */
  function ToWellFormed(s: Text): (r: Text)
    decreases |s|
  {
    if s == [] then []
    else if IsHighSurrogate(s[0]) && |s| >= 2 && IsLowSurrogate(s[1]) then s[..2] + ToWellFormed(s[2..])
    else if IsSurrogate(s[0]) then [REPLACEMENT] + ToWellFormed(s[1..])
    else [s[0]] + ToWellFormed(s[1..])
  }

  /** The round trip keeps the length and changes only surrogates, each into U+FFFD. */
  lemma {:induction false} ToWellFormedShape(s: Text)
    ensures |ToWellFormed(s)| == |s|
    ensures forall i | 0 <= i < |s| ::
      ToWellFormed(s)[i] == s[i] || (IsSurrogate(s[i]) && ToWellFormed(s)[i] == REPLACEMENT)
  {
    if s != [] {
      if IsHighSurrogate(s[0]) && |s| >= 2 && IsLowSurrogate(s[1]) {
        ToWellFormedShape(s[2..]);
      } else {
        ToWellFormedShape(s[1..]);
      }
    }
  }

  /** Unit by unit: a unit that is not half of a broken pair is kept, every other one becomes U+FFFD. */
  lemma {:induction false} ToWellFormedAt(s: Text, i: nat)
    requires i < |s|
    ensures |ToWellFormed(s)| == |s|
    ensures PairedAt(s, i) ==> ToWellFormed(s)[i] == s[i]
    ensures !PairedAt(s, i) ==> ToWellFormed(s)[i] == REPLACEMENT
    decreases |s|
  {
    ToWellFormedShape(s);
    var w := ToWellFormed(s);
    if IsHighSurrogate(s[0]) && |s| >= 2 && IsLowSurrogate(s[1]) {
      assert w == s[..2] + ToWellFormed(s[2..]);
      if i >= 2 {
        ToWellFormedAt(s[2..], i - 2);
        PairedAfter(s, 2, i);
      } else {
        assert w[i] == s[i] && PairedAt(s, i);
      }
    } else {
      var head := if IsSurrogate(s[0]) then REPLACEMENT else s[0];
      assert w == [head] + ToWellFormed(s[1..]);
      if i >= 1 {
        ToWellFormedAt(s[1..], i - 1);
        PairedAfter(s, 1, i);
      }
    }
  }

  /** Pairing at `i` is the same in `s` and in `s[k..]` unless `i` is the low half of a pair cut at `k`. */
  lemma PairedAfter(s: Text, k: nat, i: nat)
    requires 0 < k <= i < |s|
    requires i == k ==> !(IsHighSurrogate(s[k - 1]) && IsLowSurrogate(s[k]))
    ensures PairedAt(s, i) <==> PairedAt(s[k..], i - k)
  {
    var t := s[k..];
    assert t[i - k] == s[i];
    if i + 1 < |s| {
      assert t[i - k + 1] == s[i + 1];
    }
    if i > k {
      assert t[i - k - 1] == s[i - 1];
    }
  }

  /** Well-formed pieces glue into a well-formed string when no pair is broken at the seam. */
  lemma WellFormedConcat(a: Text, b: Text)
    requires WellFormed(a) && WellFormed(b)
    requires |a| > 0 ==> !IsHighSurrogate(a[|a| - 1])
    requires |b| > 0 ==> !IsLowSurrogate(b[0])
    ensures WellFormed(a + b)
  {
    var ab := a + b;
    forall i | 0 <= i < |ab|
      ensures PairedAt(ab, i)
    {
      if i < |a| {
        assert PairedAt(a, i);
        assert ab[i] == a[i];
        if i + 1 < |a| {
          assert ab[i + 1] == a[i + 1];
        }
        if 0 < i {
          assert ab[i - 1] == a[i - 1];
        }
      } else {
        assert PairedAt(b, i - |a|);
        assert ab[i] == b[i - |a|];
        if i + 1 < |ab| {
          assert ab[i + 1] == b[i + 1 - |a|];
        }
        if i > |a| {
          assert ab[i - 1] == b[i - 1 - |a|];
        }
      }
    }
  }

  /** The round trip always yields a well-formed string, never starting with a low surrogate. */
  lemma {:induction false} ToWellFormedIsWellFormed(s: Text)
    ensures WellFormed(ToWellFormed(s))
    ensures |ToWellFormed(s)| > 0 ==> !IsLowSurrogate(ToWellFormed(s)[0])
  {
    if s != [] {
      if IsHighSurrogate(s[0]) && |s| >= 2 && IsLowSurrogate(s[1]) {
        ToWellFormedIsWellFormed(s[2..]);
        WellFormedConcat(s[..2], ToWellFormed(s[2..]));
      } else if IsSurrogate(s[0]) {
        ToWellFormedIsWellFormed(s[1..]);
        WellFormedConcat([REPLACEMENT], ToWellFormed(s[1..]));
      } else {
        ToWellFormedIsWellFormed(s[1..]);
        WellFormedConcat([s[0]], ToWellFormed(s[1..]));
      }
    }
  }

  /** A suffix of a well-formed string that does not start inside a pair is well-formed. */
  lemma WellFormedSuffix(s: Text, k: nat)
    requires WellFormed(s) && k <= |s|
    requires k < |s| ==> !IsLowSurrogate(s[k])
    ensures WellFormed(s[k..])
  {
    var t := s[k..];
    forall i | 0 <= i < |t|
      ensures PairedAt(t, i)
    {
      assert PairedAt(s, k + i);
      assert t[i] == s[k + i];
      if i + 1 < |t| {
        assert t[i + 1] == s[k + i + 1];
      }
      if 0 < i {
        assert t[i - 1] == s[k + i - 1];
      }
    }
  }

  /** A well-formed string survives the round trip unchanged. */
  lemma {:induction false} ToWellFormedKeepsWellFormed(s: Text)
    requires WellFormed(s)
    ensures ToWellFormed(s) == s
  {
    if s != [] {
      assert PairedAt(s, 0);
      if IsHighSurrogate(s[0]) {
        if |s| > 2 {
          assert PairedAt(s, 2);
        }
        WellFormedSuffix(s, 2);
        ToWellFormedKeepsWellFormed(s[2..]);
        assert s[..2] + s[2..] == s;
      } else {
        if |s| > 1 {
          assert PairedAt(s, 1);
        }
        WellFormedSuffix(s, 1);
        ToWellFormedKeepsWellFormed(s[1..]);
        assert [s[0]] + s[1..] == s;
      }
    }
  }

  /** ASCII text contains no surrogate, so it is well-formed. */
  lemma AsciiWellFormed(s: Text)
    requires IsAscii(s)
    ensures WellFormed(s)
  {
  }
}
