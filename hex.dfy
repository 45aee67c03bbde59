/**
 * Hexadecimal digits, as the bridge's Java and TypeScript code uses them.
 *
 * A Java `byte` is represented by its unsigned value `b & 0xFF`, which is the
 * only form in which the bridge ever reads a byte back. The library routines
 * the codecs lean on (`Integer.toHexString`, `Number.prototype.toString(16)`,
 * `Character.digit`, `toUpperCase`, `parseInt(_, 16)` on digit strings) are
 * given here by their effect on the inputs the bridge passes them.
 */
module Hex {

  /** One byte of a Java `byte[]`, seen as its unsigned value. */
  newtype byte = b: int | 0 <= b < 256

  /** The value of one hex digit. */
  type Nibble = d: nat | d < 16

  predicate IsHexDigit(c: char) {
    '0' <= c <= '9' || 'A' <= c <= 'F' || 'a' <= c <= 'f'
  }

  predicate IsUpperHexDigit(c: char) {
    '0' <= c <= '9' || 'A' <= c <= 'F'
  }

  predicate AllHexDigits(s: string) {
    forall i :: 0 <= i < |s| ==> IsHexDigit(s[i])
  }

  predicate AllUpperHexDigits(s: string) {
    forall i :: 0 <= i < |s| ==> IsUpperHexDigit(s[i])
  }

  /** The value of a hex digit in either case. */
  function DigitValue(c: char): (v: Nibble)
    requires IsHexDigit(c)
    ensures '0' <= c <= '9' ==> v < 10
    ensures !('0' <= c <= '9') ==> 10 <= v
  {
    if '0' <= c <= '9' then c as int - '0' as int
    else if 'A' <= c <= 'F' then c as int - 'A' as int + 10
    else c as int - 'a' as int + 10
  }

  /** `Character.digit(c, 16)` for an ASCII character: -1 when `c` is no hex digit. */
  function JavaDigit(c: char): (v: int)
    ensures -1 <= v < 16
    ensures v == -1 <==> !IsHexDigit(c)
  {
    if IsHexDigit(c) then DigitValue(c) else -1
  }

  /** The upper-case digit of a nibble, as in `"0123456789ABCDEF"`. */
  function UpperDigit(d: Nibble): (c: char)
    ensures IsUpperHexDigit(c) && DigitValue(c) == d
  {
    if d < 10 then ('0' as int + d) as char else ('A' as int + d - 10) as char
  }

  /** The lower-case digit of a nibble, as `Integer.toHexString` and `toString(16)` write it. */
  function LowerDigit(d: Nibble): (c: char)
    ensures IsHexDigit(c) && DigitValue(c) == d
    ensures d < 10 ==> c == UpperDigit(d)
  {
    if d < 10 then ('0' as int + d) as char else ('a' as int + d - 10) as char
  }

  /** Upper-casing of one character, on the ASCII letters. */
  function ToUpper(c: char): char {
    if 'a' <= c <= 'z' then (c as int - 32) as char else c
  }

  /** `String.toUpperCase()` / `toUpperCase()`, character by character. */
  function UpperCase(s: string): (r: string)
    ensures |r| == |s|
    ensures forall i :: 0 <= i < |s| ==> r[i] == ToUpper(s[i])
  {
    seq(|s|, i requires 0 <= i < |s| => ToUpper(s[i]))
  }

  /** An upper-case digit is the digit of its own value. */
  lemma UpperDigitOfValue(c: char)
    requires IsUpperHexDigit(c)
    ensures IsHexDigit(c) && UpperDigit(DigitValue(c)) == c
  {
  }

  /** Sixteen times a nibble plus a nibble splits back into the two. */
  lemma NibbleHalves(hi: Nibble, lo: Nibble)
    ensures (16 * hi + lo) / 16 == hi && (16 * hi + lo) % 16 == lo
  {
  }

  /** Upper-casing changes neither whether a character is a hex digit nor its value. */
  lemma ToUpperKeepsDigit(c: char)
    ensures IsHexDigit(ToUpper(c)) <==> IsHexDigit(c)
    ensures IsHexDigit(c) ==> IsUpperHexDigit(ToUpper(c)) && DigitValue(ToUpper(c)) == DigitValue(c)
  {
  }

  lemma UpperOfLowerDigit(d: Nibble)
    ensures ToUpper(LowerDigit(d)) == UpperDigit(d)
  {
  }

  /**
   * `Integer.toHexString(n)` for `n >= 0`, and equally `n.toString(16)`:
   * lower-case digits, most significant first, no leading zero, "0" for zero.
   */
  function RawHex(n: nat): (s: string)
    ensures 1 <= |s|
    ensures |s| > 1 ==> s[0] != '0'
    decreases n
  {
    if n < 16 then [LowerDigit(n)] else RawHex(n / 16) + [LowerDigit(n % 16)]
  }

  /** The number a string of hex digits denotes, most significant digit first. */
  function HexNumber(s: string): (n: nat)
    requires AllHexDigits(s)
  {
    if s == [] then 0 else 16 * HexNumber(s[..|s| - 1]) + DigitValue(s[|s| - 1])
  }

  function Pow16(k: nat): (p: nat)
    ensures p >= 1
  {
    if k == 0 then 1 else 16 * Pow16(k - 1)
  }

  /** Every character of `RawHex(n)` is a lower-case or decimal hex digit. */
  lemma {:induction false} RawHexDigits(n: nat)
    ensures AllHexDigits(RawHex(n))
    ensures forall i :: 0 <= i < |RawHex(n)| ==> ToUpper(RawHex(n)[i]) == UpperDigit(DigitValue(RawHex(n)[i]))
    decreases n
  {
    if n >= 16 {
      RawHexDigits(n / 16);
      UpperOfLowerDigit(n % 16);
    } else {
      UpperOfLowerDigit(n);
    }
  }

  /** `RawHex` writes `n` exactly: reading its digits back gives `n`. */
  lemma {:induction false} RawHexValue(n: nat)
    ensures AllHexDigits(RawHex(n)) && HexNumber(RawHex(n)) == n
    decreases n
  {
    RawHexDigits(n);
    if n >= 16 {
      var s := RawHex(n);
      assert s[..|s| - 1] == RawHex(n / 16);
      RawHexValue(n / 16);
    }
  }

  /** A number below 16^k takes at most k digits. */
  lemma {:induction false} RawHexLength(n: nat, k: nat)
    requires 1 <= k && n < Pow16(k)
    ensures |RawHex(n)| <= k
    decreases k
  {
    if n >= 16 {
      assert k >= 2;
      assert n / 16 < Pow16(k - 1);
      RawHexLength(n / 16, k - 1);
    }
  }

  /** A byte value takes one digit below 16 and two from 16 on. */
  lemma RawHexOfByte(b: byte)
    ensures b < 16 ==> RawHex(b as nat) == [LowerDigit(b as nat)]
    ensures b >= 16 ==> RawHex(b as nat) == [LowerDigit(b as nat / 16), LowerDigit(b as nat % 16)]
  {
  }

  /** A leading zero does not change the number a digit string denotes. */
  lemma {:induction false} LeadingZero(s: string)
    requires AllHexDigits(s)
    ensures AllHexDigits("0" + s) && HexNumber("0" + s) == HexNumber(s)
    decreases |s|
  {
    if s != [] {
      var t := "0" + s;
      assert t[..|t| - 1] == "0" + s[..|s| - 1];
      LeadingZero(s[..|s| - 1]);
    }
  }

  /** Upper-casing a digit string keeps the number it denotes. */
  lemma {:induction false} UpperCaseValue(s: string)
    requires AllHexDigits(s)
    ensures AllUpperHexDigits(UpperCase(s)) && AllHexDigits(UpperCase(s))
    ensures HexNumber(UpperCase(s)) == HexNumber(s)
    decreases |s|
  {
    forall i | 0 <= i < |s| ensures IsUpperHexDigit(UpperCase(s)[i]) {
      ToUpperKeepsDigit(s[i]);
    }
    if s != [] {
      var u := UpperCase(s);
      assert u[..|u| - 1] == UpperCase(s[..|s| - 1]);
      ToUpperKeepsDigit(s[|s| - 1]);
      UpperCaseValue(s[..|s| - 1]);
    }
  }

  /** Two digits denote sixteen times the first plus the second. */
  lemma HexNumberOfPair(c1: char, c2: char)
    requires IsHexDigit(c1) && IsHexDigit(c2)
    ensures AllHexDigits([c1, c2]) && HexNumber([c1, c2]) == 16 * DigitValue(c1) + DigitValue(c2)
  {
    assert [c1, c2][..1] == [c1];
    HexNumberOfDigit(c1);
  }

  lemma HexNumberOfDigit(c: char)
    requires IsHexDigit(c)
    ensures AllHexDigits([c]) && HexNumber([c]) == DigitValue(c)
  {
    assert [c][..0] == [];
  }
}
