/**
 * `urlDecodeBase64` of src/utils.ts: the input is passed through a UTF-8
 * buffer, every code unit is written as a percent escape of its last two
 * hexadecimal digits, the escapes are decoded by `decodeURIComponent`, and
 * the characters matched by `/[-_.]/g` are replaced through the
 * `b64Chars` table. A thrown URIError is caught and the function returns
 * `undefined`, here `None`.
 */
module Utils {
  import opened Wrappers
  import opened JsString
  import opened Hex
  import opened Utf8
  import opened Utf16
  import opened Uri

  /** The mapped escape of one unit: `'%' + ('00' + c.charCodeAt(0).toString(16)).slice(-2)`. */
  function PercentUnit(c: Unit): Text
  {
    [PERCENT] + SliceLastTwo(Lit("00") + ToString16(c as nat))
  }

  /** `s.split('').map(...).join('')`: the escapes of all units, in order. */
  function PercentEncode(s: Text): (r: Text)
  {
    if s == [] then [] else PercentUnit(s[0]) + PercentEncode(s[1..])
  }

  /** The low eight bits of a code unit. */
  function LowByte(c: Unit): Byte
  {
    (c as int % 256) as Byte
  }

  function LowBytes(s: Text): (b: seq<Byte>)
    ensures |b| == |s|
    ensures forall i | 0 <= i < |s| :: b[i] == LowByte(s[i])
  {
    if s == [] then [] else [LowByte(s[0])] + LowBytes(s[1..])
  }

  /** The text the replace callback returns for one matched unit: `b64Chars[m]`, `undefined` for '.'. */
  function B64Char(m: Unit): Text
    requires m == DASH || m == UNDERSCORE || m == DOT
  {
    if m == DASH then [PLUS] else if m == UNDERSCORE then [SLASH] else UNDEFINED
  }

  /** What `replace(/[-_.]/g, ...)` makes of one unit. */
  function ReplaceUnit(c: Unit): Text
  {
    if c == DASH || c == UNDERSCORE || c == DOT then B64Char(c) else [c]
  }

  /** `s.replace(/[-_.]/g, (m) => b64Chars[m])`. */
  function ReplaceUrlChars(s: Text): Text
  {
    if s == [] then [] else ReplaceUnit(s[0]) + ReplaceUrlChars(s[1..])
  }

  function UrlDecodeBase64(input: Text): Option<Text>
  {
    match DecodeURIComponent(PercentEncode(ToWellFormed(input)))
    case None => None
    case Some(decoded) => Some(ReplaceUrlChars(decoded))
  }

  // ---- the escaping stage ----

  /** A unit's escape is that of its low byte: the digits above the last two are sliced away. */
  lemma PercentUnitIsLowByteEscape(c: Unit)
    ensures PercentUnit(c) == EscapeByte(LowByte(c))
  {
    var b := LowByte(c);
    TwoLowDigits(c as nat);
    assert b as nat == c as nat % 256;
    assert PercentUnit(c) == [PERCENT] + [Digit(b as nat / 16), Digit(b as nat % 16)];
  }

  lemma LowBytesCons(s: Text)
    requires s != []
    ensures LowBytes(s) == [LowByte(s[0])] + LowBytes(s[1..])
  {
  }

  /** Every unit's escape is that of its low byte. */
  lemma {:induction false} PercentEncodeIsLowByteEscapes(s: Text)
    ensures PercentEncode(s) == EscapeBytes(LowBytes(s))
  {
    if s != [] {
      PercentUnitIsLowByteEscape(s[0]);
      PercentEncodeIsLowByteEscapes(s[1..]);
      LowBytesCons(s);
      EscapeBytesCons(LowByte(s[0]), LowBytes(s[1..]));
    }
  }

  /**
   * The whole function in two stages: the low bytes of the UTF-8 round trip
   * of the input are UTF-8 decoded (failing exactly when they are
   * ill-formed), and the URL characters of the result are replaced.
   */
  lemma UrlDecodeBase64Stages(input: Text)
    ensures UrlDecodeBase64(input) ==
      match DecodeUtf8(LowBytes(ToWellFormed(input)))
      case None => None
      case Some(decoded) => Some(ReplaceUrlChars(decoded))
  {
    PercentEncodeIsLowByteEscapes(ToWellFormed(input));
    DecodeEscaped(LowBytes(ToWellFormed(input)));
  }

  /** Inputs whose (well-formed) units agree in their low bytes give the same result. */
  lemma OnlyLowBytesMatter(a: Text, b: Text)
    requires LowBytes(ToWellFormed(a)) == LowBytes(ToWellFormed(b))
    ensures UrlDecodeBase64(a) == UrlDecodeBase64(b)
  {
    UrlDecodeBase64Stages(a);
    UrlDecodeBase64Stages(b);
  }

  /** On ASCII text the escape-and-decode stage is the identity, `%` included. */
  lemma {:induction false} PercentStageAscii(s: Text)
    requires IsAscii(s)
    ensures DecodeURIComponent(PercentEncode(s)) == Some(s)
  {
    var b := LowBytes(s);
    PercentEncodeIsLowByteEscapes(s);
    DecodeEscaped(b);
    LowBytesAscii(s);
    DecodeAscii(b);
    var cps := Utf8.Decode(b).value;
    EncodeBasic(cps);
    assert Utf16.Encode(cps) == s;
  }

  lemma {:induction false} LowBytesAscii(s: Text)
    requires IsAscii(s)
    ensures forall i | 0 <= i < |s| :: LowBytes(s)[i] as int == s[i] as int
  {
    if s != [] {
      LowBytesAscii(s[1..]);
    }
  }

  // ---- the replacement stage ----

  /** Replacement works unit by unit: it distributes over concatenation. */
  lemma {:induction false} ReplaceConcat(a: Text, b: Text)
    ensures ReplaceUrlChars(a + b) == ReplaceUrlChars(a) + ReplaceUrlChars(b)
  {
    if a != [] {
      ReplaceConcat(a[1..], b);
      assert (a + b)[0] == a[0];
      assert (a + b)[1..] == a[1..] + b;
      calc {
        ReplaceUrlChars(a + b);
        ReplaceUnit(a[0]) + ReplaceUrlChars(a[1..] + b);
        ReplaceUnit(a[0]) + (ReplaceUrlChars(a[1..]) + ReplaceUrlChars(b));
        (ReplaceUnit(a[0]) + ReplaceUrlChars(a[1..])) + ReplaceUrlChars(b);
      }
    } else {
      assert a + b == b;
    }
  }

  /** '-' becomes '+', '_' becomes '/', '.' becomes the nine units "undefined", anything else stays. */
  lemma ReplaceSingle(c: Unit)
    ensures c == DASH ==> ReplaceUrlChars([c]) == [PLUS]
    ensures c == UNDERSCORE ==> ReplaceUrlChars([c]) == [SLASH]
    ensures c == DOT ==> ReplaceUrlChars([c]) == Lit("undefined")
    ensures c != DASH && c != UNDERSCORE && c != DOT ==> ReplaceUrlChars([c]) == [c]
  {
    assert [c][1..] == [];
  }

  /** The result grows by eight units for every '.', and by nothing else. */
  lemma {:induction false} ReplaceLength(s: Text)
    ensures |ReplaceUrlChars(s)| == |s| + 8 * Count(s, DOT)
  {
    if s != [] {
      ReplaceLength(s[1..]);
    }
  }

  /** '-' and '_' are translated in place; every other unit except '.' keeps its position. */
  lemma {:induction false} ReplaceWithoutDots(s: Text)
    requires Lacks(s, DOT)
    ensures |ReplaceUrlChars(s)| == |s|
    ensures forall i | 0 <= i < |s| ::
      ReplaceUrlChars(s)[i] == (if s[i] == DASH then PLUS else if s[i] == UNDERSCORE then SLASH else s[i])
  {
    if s != [] {
      ReplaceWithoutDots(s[1..]);
    }
  }

  /** Text without '-', '_' and '.' is left unchanged. */
  lemma {:induction false} ReplaceNothingToReplace(s: Text)
    requires Lacks(s, DASH) && Lacks(s, UNDERSCORE) && Lacks(s, DOT)
    ensures ReplaceUrlChars(s) == s
  {
    if s != [] {
      ReplaceNothingToReplace(s[1..]);
      assert [s[0]] + s[1..] == s;
    }
  }

  /** No replacement text contains '-', '_' or '.', so the replacement removes them all. */
  lemma {:induction false} ReplaceRemovesUrlChars(s: Text)
    ensures Lacks(ReplaceUrlChars(s), DASH)
    ensures Lacks(ReplaceUrlChars(s), UNDERSCORE)
    ensures Lacks(ReplaceUrlChars(s), DOT)
  {
    if s != [] {
      var head, tail := ReplaceUnit(s[0]), ReplaceUrlChars(s[1..]);
      ReplaceRemovesUrlChars(s[1..]);
      LitLacks("undefined", '-');
      LitLacks("undefined", '_');
      LitLacks("undefined", '.');
      LacksConcat(head, tail, DASH);
      LacksConcat(head, tail, UNDERSCORE);
      LacksConcat(head, tail, DOT);
    }
  }

  /** The replacement keeps ASCII text ASCII. */
  lemma {:induction false} ReplaceKeepsAscii(s: Text)
    requires IsAscii(s)
    ensures IsAscii(ReplaceUrlChars(s))
  {
    if s != [] {
      ReplaceKeepsAscii(s[1..]);
      AsciiConcat(ReplaceUnit(s[0]), ReplaceUrlChars(s[1..]));
    }
  }

  // ---- the whole function ----

  /** On ASCII input the result is always defined: it is the input with the URL characters replaced. */
  lemma UrlDecodeBase64Ascii(s: Text)
    requires IsAscii(s)
    ensures UrlDecodeBase64(s) == Some(ReplaceUrlChars(s))
  {
    AsciiWellFormed(s);
    ToWellFormedKeepsWellFormed(s);
    PercentStageAscii(s);
  }

  /** A defined result contains no '-', '_' or '.'. */
  lemma UrlDecodeBase64NoUrlChars(s: Text)
    requires UrlDecodeBase64(s).Some?
    ensures Lacks(UrlDecodeBase64(s).value, DASH)
    ensures Lacks(UrlDecodeBase64(s).value, UNDERSCORE)
    ensures Lacks(UrlDecodeBase64(s).value, DOT)
  {
    ReplaceRemovesUrlChars(DecodeURIComponent(PercentEncode(ToWellFormed(s))).value);
  }

  /** On ASCII input, applying the function to its own result changes nothing more. */
  lemma UrlDecodeBase64Idempotent(s: Text)
    requires IsAscii(s)
    ensures UrlDecodeBase64(s).Some?
    ensures UrlDecodeBase64(UrlDecodeBase64(s).value) == UrlDecodeBase64(s)
  {
    var r := ReplaceUrlChars(s);
    UrlDecodeBase64Ascii(s);
    ReplaceRemovesUrlChars(s);
    ReplaceKeepsAscii(s);
    UrlDecodeBase64Ascii(r);
    ReplaceNothingToReplace(r);
  }

  /** On ASCII input without '.', the output is exactly as long as the input. */
  lemma UrlDecodeBase64KeepsLength(s: Text)
    requires IsAscii(s) && Lacks(s, DOT)
    ensures UrlDecodeBase64(s).Some? && |UrlDecodeBase64(s).value| == |s|
  {
    UrlDecodeBase64Ascii(s);
    ReplaceWithoutDots(s);
  }

  /**
   * A unit whose low byte is 0x80 or above, between units whose low bytes
   * are ASCII, is a lone non-ASCII octet for `decodeURIComponent`: the
   * URIError is caught and the result is `undefined`.
   */
  lemma LoneHighUnitIsUndefined(s: Text, i: nat)
    requires i < |s| && s[i] as int % 256 >= 0x80
    requires i + 1 < |s| ==> s[i + 1] < 0x80
    requires 0 < i ==> s[i - 1] < 0x80
    ensures UrlDecodeBase64(s) == None
  {
    LoneHighByteOfUnits(s, i);
    UndefinedWhenNotUtf8(s);
  }

  /** The octets of such a text are not UTF-8. */
  lemma LoneHighByteOfUnits(s: Text, i: nat)
    requires i < |s| && s[i] as int % 256 >= 0x80
    requires i + 1 < |s| ==> s[i + 1] < 0x80
    requires 0 < i ==> s[i - 1] < 0x80
    ensures DecodeUtf8(LowBytes(ToWellFormed(s))) == None
  {
    UnitOfWellFormed(s, i);
    if i + 1 < |s| {
      UnitOfWellFormed(s, i + 1);
    }
    if 0 < i {
      UnitOfWellFormed(s, i - 1);
    }
    LoneHighLowByte(ToWellFormed(s), i);
  }

  /** A unit with a high low byte between ASCII units gives octets that are not UTF-8. */
  lemma LoneHighLowByte(w: Text, i: nat)
    requires i < |w| && w[i] as int % 256 >= 0x80
    requires i + 1 < |w| ==> w[i + 1] < 0x80
    requires 0 < i ==> w[i - 1] < 0x80
    ensures DecodeUtf8(LowBytes(w)) == None
  {
    var lb := LowBytes(w);
    assert lb[i] >= 0x80 by {
      assert lb[i] == LowByte(w[i]);
    }
    if i + 1 < |w| {
      assert lb[i + 1] < 0x80 by {
        assert lb[i + 1] == LowByte(w[i + 1]);
        AsciiLowByte(w[i + 1]);
      }
    }
    if 0 < i {
      assert lb[i - 1] < 0x80 by {
        assert lb[i - 1] == LowByte(w[i - 1]);
        AsciiLowByte(w[i - 1]);
      }
    }
    LoneHighByteRejected(lb, i);
  }

  lemma AsciiLowByte(c: Unit)
    requires c < 0x80
    ensures LowByte(c) < 0x80
  {
  }

  /** When the low bytes are not UTF-8, the URIError is caught and the result is `undefined`. */
  lemma UndefinedWhenNotUtf8(s: Text)
    requires DecodeUtf8(LowBytes(ToWellFormed(s))) == None
    ensures UrlDecodeBase64(s) == None
  {
    UrlDecodeBase64Stages(s);
  }

  /** The UTF-8 round trip keeps an ASCII unit, and a unit with a high low byte keeps a high low byte. */
  lemma UnitOfWellFormed(s: Text, i: nat)
    requires i < |s|
    ensures |ToWellFormed(s)| == |s|
    ensures s[i] < 0x80 ==> ToWellFormed(s)[i] == s[i]
    ensures s[i] as int % 256 >= 0x80 ==> ToWellFormed(s)[i] as int % 256 >= 0x80
  {
    ToWellFormedShape(s);
    if ToWellFormed(s)[i] != s[i] {
      assert IsSurrogate(s[i]) && ToWellFormed(s)[i] == REPLACEMENT;
    }
  }

  /** 'é' (U+00E9) alone: its single octet 0xE9 is not UTF-8, so the result is `undefined`. */
  lemma Latin1LetterIsUndefined()
    ensures UrlDecodeBase64([0xE9]) == None
  {
    LoneHighUnitIsUndefined([0xE9], 0);
  }

  /** 'Ł' (U+0141) counts only by its low byte 0x41, so it comes out as 'A'. */
  lemma OnlyLowByteOfUnitCounts()
    ensures UrlDecodeBase64([0x141]) == Some([0x41])
  {
    ToWellFormedShape([0x141]);
    ToWellFormedShape([0x41]);
    OnlyLowBytesMatter([0x141], [0x41]);
    UrlDecodeBase64Ascii([0x41]);
    ReplaceSingle(0x41);
  }
}
