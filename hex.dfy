/**
 * Hexadecimal digits: `Number.prototype.toString(16)` for non-negative
 * integers (lower-case digits, no leading zeros), `String.prototype.slice`
 * with a negative start, and the digit values that percent-decoding reads
 * (upper or lower case).
 */
module Hex {
  import opened JsString
  import opened Arithmetic

  /** The lower-case digit for a value below 16. */
  function Digit(d: nat): (u: Unit)
    requires d < 16
  {
    if d < 10 then (0x30 + d) as Unit else (0x61 + d - 10) as Unit
  }

  predicate IsHexDigit(u: Unit) {
    (0x30 <= u <= 0x39) || (0x41 <= u <= 0x46) || (0x61 <= u <= 0x66)
  }

  function DigitValue(u: Unit): (d: nat)
    requires IsHexDigit(u)
    ensures d < 16
  {
    if u <= 0x39 then (u - 0x30) as nat
    else if u <= 0x46 then (u - 0x41 + 10) as nat
    else (u - 0x61 + 10) as nat
  }

  /** Reading a digit back gives its value. */
  lemma DigitRoundTrip(d: nat)
    requires d < 16
    ensures IsHexDigit(Digit(d)) && DigitValue(Digit(d)) == d
  {
  }

  /** `n.toString(16)`. */
  function ToString16(n: nat): (r: Text)
    ensures |r| >= 1
    decreases n
  {
    if n < 16 then [Digit(n)] else ToString16(n / 16) + [Digit(n % 16)]
  }

  /** `s.slice(-2)`: the last two units, or all of `s` when it is shorter. */
  function SliceLastTwo(s: Text): Text
  {
    if |s| >= 2 then s[|s| - 2..] else s
  }

  /** The last digit of `n.toString(16)` is that of `n % 16`. */
  lemma LastDigit(n: nat)
    ensures ToString16(n)[|ToString16(n)| - 1] == Digit(n % 16)
  {
  }

  /**
   * `('00' + n.toString(16)).slice(-2)` is the two-digit form of `n % 256`:
   * the higher digits are cut away.
   */
  lemma TwoLowDigits(n: nat)
    ensures SliceLastTwo(Lit("00") + ToString16(n)) == [Digit((n % 256) / 16), Digit((n % 256) % 16)]
  {
    var z, t := Lit("00"), ToString16(n);
    SecondDigit(n);
    if n < 16 {
      assert t == [Digit(n)];
      assert (z + t)[1] == z[1] == Digit(0);
      assert (z + t)[2] == Digit(n);
    } else {
      var h := ToString16(n / 16);
      assert t == h + [Digit(n % 16)];
      LastDigit(n / 16);
      assert (z + t)[|z + t| - 1] == t[|t| - 1] == Digit(n % 16);
      assert (z + t)[|z + t| - 2] == t[|t| - 2] == h[|h| - 1];
    }
  }

  /** The two lowest hexadecimal digits of `n` are those of `n % 256`. */
  lemma SecondDigit(n: nat)
    ensures (n % 256) / 16 == (n / 16) % 16
    ensures (n % 256) % 16 == n % 16
  {
    var a, b, c := n / 256, (n / 16) % 16, n % 16;
    DivMod(n, n / 16, c, 16);
    DivMod(n / 16, a, b, 16);
    assert n == a * 256 + (b * 16 + c);
    DivMod(n, a, b * 16 + c, 256);
    DivMod(b * 16 + c, b, c, 16);
  }

}
