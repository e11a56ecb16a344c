/**
 * JavaScript strings as sequences of UTF-16 code units, and the few string
 * built-ins the model needs: template-literal interpolation, counting and
 * `String.prototype.split` with a one-unit separator.
 */
module JsString {
  import opened Wrappers

  /** One UTF-16 code unit, the element of a JavaScript string (lone surrogates included). */
  newtype Unit = x: int | 0 <= x < 0x1_0000

  /** A JavaScript string value. */
  type Text = seq<Unit>

  const PERCENT: Unit := 0x25     // '%'
  const AMPERSAND: Unit := 0x26   // '&'
  const PLUS: Unit := 0x2B        // '+'
  const DASH: Unit := 0x2D        // '-'
  const DOT: Unit := 0x2E         // '.'
  const SLASH: Unit := 0x2F       // '/'
  const EQUALS: Unit := 0x3D      // '='
  const UNDERSCORE: Unit := 0x5F  // '_'

  /** An ASCII literal of the source, as code units. */
  function Lit(s: string): Text
    requires forall i | 0 <= i < |s| :: s[i] < 128 as char
  {
    seq(|s|, i requires 0 <= i < |s| => s[i] as int as Unit)
  }

  /** `String(undefined)`, the text JavaScript substitutes for a missing value. */
  const UNDEFINED: Text := Lit("undefined")

  /** A literal written in two parts is the concatenation of the parts' literals. */
  lemma LitConcat(a: string, b: string)
    requires forall i | 0 <= i < |a| :: a[i] < 128 as char
    requires forall i | 0 <= i < |b| :: b[i] < 128 as char
    ensures Lit(a + b) == Lit(a) + Lit(b)
  {
    var l, r := Lit(a + b), Lit(a) + Lit(b);
    forall i | 0 <= i < |l|
      ensures l[i] == r[i]
    {
      if i < |a| {
        assert (a + b)[i] == a[i];
      } else {
        assert (a + b)[i] == b[i - |a|];
      }
    }
  }

  predicate IsAscii(s: Text) {
    forall i | 0 <= i < |s| :: s[i] < 0x80
  }

  /** `c` does not occur in `s`. */
  predicate Lacks(s: Text, c: Unit) {
    forall i | 0 <= i < |s| :: s[i] != c
  }

  lemma LacksConcat(a: Text, b: Text, c: Unit)
    requires Lacks(a, c) && Lacks(b, c)
    ensures Lacks(a + b, c)
  {
  }

  lemma AsciiConcat(a: Text, b: Text)
    requires IsAscii(a) && IsAscii(b)
    ensures IsAscii(a + b)
  {
  }

  /** The same for a Dafny string literal (used to transfer facts to `Lit`). */
  predicate LiteralLacks(s: string, c: char) {
    forall i | 0 <= i < |s| :: s[i] != c
  }

  lemma LitLacks(s: string, c: char)
    requires forall i | 0 <= i < |s| :: s[i] < 128 as char
    requires c < 128 as char && LiteralLacks(s, c)
    ensures Lacks(Lit(s), c as int as Unit)
  {
  }

  /** `${v}` in a template literal: a string is inserted as it is, `undefined` as the word "undefined". */
  function Interpolate(v: Option<Text>): Text
  {
    match v
    case Some(t) => t
    case None => UNDEFINED
  }

  /** Number of occurrences of `c` in `s`. */
  function Count(s: Text, c: Unit): nat
  {
    if s == [] then 0 else (if s[0] == c then 1 else 0) + Count(s[1..], c)
  }

  /** `s.split(sep)` for a separator of one code unit: the pieces between the occurrences of `sep`. */
  function Split(s: Text, sep: Unit): (r: seq<Text>)
    ensures |r| >= 1
  {
    if s == [] then [[]]
    else
      var rest := Split(s[1..], sep);
      if s[0] == sep then [[]] + rest
      else [[s[0]] + rest[0]] + rest[1..]
  }

  /** Splitting yields one piece more than there are separators, and no piece contains the separator. */
  lemma {:induction false} SplitPieces(s: Text, sep: Unit)
    ensures |Split(s, sep)| == Count(s, sep) + 1
    ensures forall k | 0 <= k < |Split(s, sep)| :: Lacks(Split(s, sep)[k], sep)
  {
    if s != [] {
      SplitPieces(s[1..], sep);
    }
  }

  /** A string without the separator is a single piece. */
  lemma {:induction false} SplitLacking(s: Text, sep: Unit)
    requires Lacks(s, sep)
    ensures Split(s, sep) == [s]
  {
    if s != [] {
      SplitLacking(s[1..], sep);
      assert s[0] != sep;
      assert [s[0]] + s[1..] == s;
    }
  }

  /** A separator between two strings splits them independently. */
  lemma {:induction false} SplitAround(a: Text, sep: Unit, b: Text)
    ensures Split(a + [sep] + b, sep) == Split(a, sep) + Split(b, sep)
  {
    var x := a + [sep] + b;
    if a == [] {
      assert x == [sep] + b;
      assert x[1..] == b;
    } else {
      SplitAround(a[1..], sep, b);
      assert x[0] == a[0];
      assert x[1..] == a[1..] + [sep] + b;
      SplitStep(a, sep, Split(a[1..], sep), Split(b, sep));
    }
  }

  /** The step of `SplitAround`: the first unit of `a` goes to the first piece, or starts a new one. */
  lemma SplitStep(a: Text, sep: Unit, r: seq<Text>, q: seq<Text>)
    requires a != [] && r == Split(a[1..], sep)
    ensures (if a[0] == sep then [[]] + (r + q) else [[a[0]] + (r + q)[0]] + (r + q)[1..]) == Split(a, sep) + q
  {
    if a[0] == sep {
      assert [[]] + (r + q) == ([[]] + r) + q;
    } else {
      assert (r + q)[0] == r[0];
      assert (r + q)[1..] == r[1..] + q;
      assert [[a[0]] + r[0]] + (r[1..] + q) == ([[a[0]] + r[0]] + r[1..]) + q;
    }
  }

  /** Three separator-free strings joined by two separators split back into those three. */
  lemma SplitThree(a: Text, b: Text, c: Text, sep: Unit)
    requires Lacks(a, sep) && Lacks(b, sep) && Lacks(c, sep)
    ensures Split(a + [sep] + b + [sep] + c, sep) == [a, b, c]
    ensures Count(a + [sep] + b + [sep] + c, sep) == 2
  {
    assert a + [sep] + b + [sep] + c == a + [sep] + (b + [sep] + c);
    SplitAround(a, sep, b + [sep] + c);
    SplitAround(b, sep, c);
    SplitLacking(a, sep);
    SplitLacking(b, sep);
    SplitLacking(c, sep);
    SplitPieces(a + [sep] + b + [sep] + c, sep);
  }
}
