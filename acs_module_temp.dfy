/**
 * The codecs and the batch transmit loop of `AcsModuleTemp.java`.
 *
 * `toByteArray` is the permissive decoder: it skips every character that is
 * not a hex digit and packs the digits two to a byte, keeping an odd last
 * digit as the high half of a last byte. `toHexString(byte[])` writes each
 * byte as two upper-case digits and a space, which `toByteArray` reads back.
 * `TransmitTask` cuts its command text at every line feed and makes exactly
 * one reader call per piece, recording success or failure and carrying on.
 */
module AcsModuleTemp {
  import opened Hex
  import opened Strings
  import opened SmartCard

  // ---------------------------------------------------------------------------
  // toByteArray: the permissive decoder
  // ---------------------------------------------------------------------------

  /** The values of the hex digits of `s`, in order; every other character is skipped. */
  function Nibbles(s: string): (ds: seq<Nibble>)
    ensures |ds| <= |s|
  {
    if s == [] then []
    else Nibbles(s[..|s| - 1]) + (if IsHexDigit(s[|s| - 1]) then [DigitValue(s[|s| - 1])] else [])
  }

  /** The hex digits of `s`, in order. */
  function OnlyHexDigits(s: string): (h: string)
    ensures AllHexDigits(h) && |h| <= |s|
  {
    if s == [] then []
    else OnlyHexDigits(s[..|s| - 1]) + (if IsHexDigit(s[|s| - 1]) then [s[|s| - 1]] else [])
  }

  /** The hex digits among the first `i` characters of `s`, as the decoding loop meets them. */
  function NibblesTo(s: string, i: nat): (ds: seq<Nibble>)
    requires i <= |s|
  {
    if i == 0 then []
    else NibblesTo(s, i - 1) + (if IsHexDigit(s[i - 1]) then [DigitValue(s[i - 1])] else [])
  }

  lemma {:induction false} NibblesToPrefix(s: string, i: nat)
    requires i <= |s|
    ensures NibblesTo(s, i) == Nibbles(s[..i])
    decreases i
  {
    if i > 0 {
      NibblesToPrefix(s, i - 1);
      NibblesStep(s, i - 1);
    }
  }

  /** Reading further never loses a digit. */
  lemma {:induction false} NibblesToGrows(s: string, i: nat)
    requires i <= |s|
    ensures |NibblesTo(s, i)| <= |NibblesTo(s, |s|)|
    decreases |s| - i
  {
    if i < |s| {
      NibblesToGrows(s, i + 1);
    }
  }

  /**
   * Byte `k` of the packed digits: digit 2k in the high half and digit 2k+1
   * in the low half, or zero there when digit 2k is the last.
   */
  function PairByte(ds: seq<Nibble>, k: nat): byte
    requires 2 * k < |ds|
  {
    if 2 * k + 1 < |ds| then (16 * ds[2 * k] as int + ds[2 * k + 1]) as byte
    else (16 * ds[2 * k] as int) as byte
  }

  /** Two digits to a byte, high half first; an odd last digit fills the high half of a last byte. */
  function Pack(ds: seq<Nibble>): (bs: seq<byte>)
  {
    seq((|ds| + 1) / 2, k requires 0 <= k < (|ds| + 1) / 2 => PairByte(ds, k))
  }

  /** What `toByteArray` returns for `s`. */
  function PermissiveDecode(s: string): seq<byte> {
    Pack(Nibbles(s))
  }

  /** A further digit does not change the bytes that were already complete. */
  lemma PairBytesSnoc(ds: seq<Nibble>, d: Nibble)
    ensures forall k :: 0 <= k && 2 * k + 1 < |ds| ==> PairByte(ds + [d], k) == PairByte(ds, k)
  {
  }

  lemma NibblesStep(s: string, i: nat)
    requires i < |s|
    ensures Nibbles(s[..i + 1]) == Nibbles(s[..i]) + (if IsHexDigit(s[i]) then [DigitValue(s[i])] else [])
  {
    assert s[..i + 1][..i] == s[..i];
  }

  lemma NibblesAppend(s: string, c: char)
    ensures Nibbles(s + [c]) == Nibbles(s) + (if IsHexDigit(c) then [DigitValue(c)] else [])
  {
    assert (s + [c])[..|s|] == s;
  }

  lemma {:induction false} NibblesConcat(a: string, b: string)
    ensures Nibbles(a + b) == Nibbles(a) + Nibbles(b)
    decreases |b|
  {
    if b == [] {
      assert a + b == a;
    } else {
      var init, last := b[..|b| - 1], b[|b| - 1];
      var tail: seq<Nibble> := if IsHexDigit(last) then [DigitValue(last)] else [];
      assert b == init + [last];
      assert a + b == (a + init) + [last];
      NibblesConcat(a, init);
      NibblesAppend(a + init, last);
      NibblesAppend(init, last);
      assert Nibbles(a) + Nibbles(init) + tail == Nibbles(a) + (Nibbles(init) + tail);
    }
  }

  /** On a string of hex digits only, the nibbles are the digit values one for one. */
  lemma {:induction false} NibblesOfDigits(h: string)
    requires AllHexDigits(h)
    ensures |Nibbles(h)| == |h|
    ensures forall i :: 0 <= i < |h| ==> Nibbles(h)[i] == DigitValue(h[i])
    decreases |h|
  {
    if h != [] {
      NibblesOfDigits(h[..|h| - 1]);
    }
  }

  lemma {:induction false} NibblesOfOnlyHexDigits(s: string)
    ensures Nibbles(OnlyHexDigits(s)) == Nibbles(s)
    decreases |s|
  {
    if s != [] {
      var init := s[..|s| - 1];
      var last: string := if IsHexDigit(s[|s| - 1]) then [s[|s| - 1]] else [];
      NibblesOfOnlyHexDigits(init);
      NibblesConcat(OnlyHexDigits(init), last);
      if last != [] {
        assert last[..0] == [];
      }
    }
  }

  /**
   * `toByteArray`: count the hex digits, allocate `(count + 1) / 2` bytes, then
   * put each digit in the high half of the current byte or, for every second
   * digit, into its low half and move on.
   */
  method ToByteArray(hexString: string) returns (bytes: seq<byte>)
    ensures bytes == PermissiveDecode(hexString)
  {
    var hexStringLength := |hexString|;
    var count := CountHexDigits(hexString);
    var byteArray := new byte[(count + 1) / 2];
    var first := true;
    var len := 0;
    ghost var ds: seq<Nibble> := [];
    var i := 0;
    while i < hexStringLength
      invariant DecodeProgress(hexString, i, count, ds, first, len, byteArray[..])
    {
      var c := hexString[i];
      var value: int;
      if '0' <= c <= '9' {
        value := c as int - '0' as int;
      } else if 'A' <= c <= 'F' {
        value := c as int - 'A' as int + 10;
      } else if 'a' <= c <= 'f' {
        value := c as int - 'a' as int + 10;
      } else {
        value := -1;
      }
      DecodeStep(hexString, i, count, ds, first, len, byteArray[..], value);
      if value >= 0 {
        if first {
          // byteArray[len] = (byte) (value << 4)
          byteArray[len] := (16 * value) as byte;
        } else {
          // byteArray[len] |= value: the low half is still zero, so the OR adds
          byteArray[len] := byteArray[len] + value as byte;
          len := len + 1;
        }
        first := !first;
        ds := ds + [value];
      }
      i := i + 1;
    }
    DecodeDone(hexString, i, count, ds, first, len, byteArray[..]);
    bytes := byteArray[..];
  }

  /**
   * Where `toByteArray` stands after `i` characters: the digits met so far
   * are `ds`; the first `len` bytes hold complete pairs, and after an odd
   * number of digits the next byte holds the last digit in its high half.
   */
  ghost predicate DecodeProgress(s: string, i: nat, count: nat, ds: seq<Nibble>, first: bool, len: nat, bytes: seq<byte>) {
    && i <= |s|
    && count == |NibblesTo(s, |s|)|
    && |bytes| == (count + 1) / 2
    && ds == NibblesTo(s, i)
    && |ds| <= count
    && |ds| == 2 * len + (if first then 0 else 1)
    && (forall k :: 0 <= k < len ==> bytes[k] == PairByte(ds, k))
    && (!first ==> bytes[len] == (16 * ds[2 * len] as int) as byte)
  }

  /** One character: a non-digit changes nothing, a digit fills the high or the low half of byte `len`. */
  lemma DecodeStep(s: string, i: nat, count: nat, ds: seq<Nibble>, first: bool, len: nat, bytes: seq<byte>, value: int)
    requires DecodeProgress(s, i, count, ds, first, len, bytes) && i < |s|
    requires value == JavaDigit(s[i])
    ensures value < 0 ==> DecodeProgress(s, i + 1, count, ds, first, len, bytes)
    ensures value >= 0 ==> len < |bytes|
    ensures value >= 0 && first ==>
      DecodeProgress(s, i + 1, count, ds + [value], false, len, bytes[len := (16 * value) as byte])
    ensures value >= 0 && !first ==>
      && bytes[len] as int + value < 256
      && DecodeProgress(s, i + 1, count, ds + [value], true, len + 1, bytes[len := bytes[len] + value as byte])
  {
    NibblesToGrows(s, i + 1);
    if value >= 0 {
      PairBytesSnoc(ds, value);
    }
  }

  /** After the last character every byte is complete, and the bytes are the decoded text. */
  lemma DecodeDone(s: string, i: nat, count: nat, ds: seq<Nibble>, first: bool, len: nat, bytes: seq<byte>)
    requires DecodeProgress(s, i, count, ds, first, len, bytes) && i >= |s|
    ensures bytes == PermissiveDecode(s)
  {
    NibblesToPrefix(s, |s|);
    assert s[..|s|] == s;
  }

  method CountHexDigits(hexString: string) returns (count: nat)
    ensures count == |NibblesTo(hexString, |hexString|)|
  {
    count := 0;
    var i := 0;
    while i < |hexString|
      invariant 0 <= i <= |hexString|
      invariant count == |NibblesTo(hexString, i)|
    {
      var c := hexString[i];
      if '0' <= c <= '9' || 'A' <= c <= 'F' || 'a' <= c <= 'f' {
        count := count + 1;
      }
      i := i + 1;
    }
  }

  /** The result does not depend on the characters that are not hex digits. */
  lemma DecodeSkipsNonDigits(s: string)
    ensures PermissiveDecode(s) == PermissiveDecode(OnlyHexDigits(s))
  {
    NibblesOfOnlyHexDigits(s);
  }

  /**
   * With `h` the hex digits of `s`: the result has `(|h| + 1) / 2` bytes; byte
   * k is 16 times digit 2k plus digit 2k+1; with an odd number of digits the
   * last byte holds the last digit in its high half and zero in its low half.
   */
  lemma DecodeDigits(s: string)
    ensures |PermissiveDecode(s)| == (|OnlyHexDigits(s)| + 1) / 2
    ensures forall k :: 0 <= k && 2 * k + 1 < |OnlyHexDigits(s)| ==>
      PermissiveDecode(s)[k] as int == 16 * DigitValue(OnlyHexDigits(s)[2 * k]) + DigitValue(OnlyHexDigits(s)[2 * k + 1])
    ensures |OnlyHexDigits(s)| % 2 == 1 ==>
      PermissiveDecode(s)[|PermissiveDecode(s)| - 1] as int == 16 * DigitValue(OnlyHexDigits(s)[|OnlyHexDigits(s)| - 1])
  {
    var h, ds, r := OnlyHexDigits(s), Nibbles(s), PermissiveDecode(s);
    NibblesOfOnlyHexDigits(s);
    NibblesOfDigits(h);
    assert |ds| == |h|;
    forall k | 0 <= k && 2 * k + 1 < |h|
      ensures r[k] as int == 16 * DigitValue(h[2 * k]) + DigitValue(h[2 * k + 1])
    {
      assert r[k] == PairByte(ds, k);
    }
    if |h| % 2 == 1 {
      var k := |h| / 2;
      assert 2 * k + 1 == |h| && |r| == k + 1;
      assert r[k] == PairByte(ds, k);
    }
  }

  /** Upper- and lower-case digits decode alike. */
  lemma {:induction false} DecodeIgnoresCase(s: string)
    ensures PermissiveDecode(UpperCase(s)) == PermissiveDecode(s)
    ensures Nibbles(UpperCase(s)) == Nibbles(s)
    decreases |s|
  {
    if s != [] {
      var u := UpperCase(s);
      assert u[..|u| - 1] == UpperCase(s[..|s| - 1]);
      ToUpperKeepsDigit(s[|s| - 1]);
      DecodeIgnoresCase(s[..|s| - 1]);
    }
  }

  // ---------------------------------------------------------------------------
  // toHexString(int)
  // ---------------------------------------------------------------------------

  /** A "0" in front of a digit string of odd length. */
  function PadEven(s: string): (p: string)
    requires AllHexDigits(s)
    ensures |p| % 2 == 0 && |s| <= |p| <= |s| + 1
    ensures AllHexDigits(p) && HexNumber(p) == HexNumber(s)
  {
    LeadingZero(s);
    if |s| % 2 != 0 then "0" + s else s
  }

  lemma EvenWithin(a: nat, b: nat)
    requires 1 <= a <= 8 && a <= b <= a + 1 && b % 2 == 0
    ensures 2 <= b <= 8
  {
  }

  /**
   * `toHexString(int)`: `Integer.toHexString` (two's complement for a negative
   * int), a "0" in front when that has odd length, upper-cased.
   */
  function ToHexStringInt(i: int): (r: string)
    requires -0x8000_0000 <= i < 0x8000_0000
    ensures |r| % 2 == 0 && 2 <= |r| <= 8
    ensures AllUpperHexDigits(r) && AllHexDigits(r)
    ensures HexNumber(r) == if i < 0 then i + 0x1_0000_0000 else i
    ensures |r| > 2 ==> r[0] != '0' || r[1] != '0'
  {
    var n: nat := if i < 0 then i + 0x1_0000_0000 else i;
    var hexString := RawHex(n);
    RawHexValue(n);
    assert Pow16(8) == 0x1_0000_0000;
    RawHexLength(n, 8);
    var padded := PadEven(hexString);
    EvenWithin(|hexString|, |padded|);
    UpperCaseValue(padded);
    UpperCase(padded)
  }

  // ---------------------------------------------------------------------------
  // toHexString(byte[]) and logBuffer
  // ---------------------------------------------------------------------------

  /** One byte as `toHexString(byte[])` and `logBuffer` write it: two upper-case digits, high half first, and a space. */
  function ByteText(b: byte): string {
    [UpperDigit(b as nat / 16), UpperDigit(b as nat % 16), ' ']
  }

  /**
   * The Java code's way of writing a byte gives `ByteText`: `Integer.toHexString`
   * of the unsigned value, a "0" in front of a single digit, upper-cased, and
   * a space.
   */
  lemma JavaByteText(b: byte)
    ensures var hexChar := RawHex(b as nat);
      UpperCase(if |hexChar| == 1 then "0" + hexChar else hexChar) + " " == ByteText(b)
  {
    RawHexOfByte(b);
    UpperOfLowerDigit(b as nat / 16);
    UpperOfLowerDigit(b as nat % 16);
  }

  /**
   * The step both `toHexString(byte[])` and `logBuffer` take for each byte:
   * `Integer.toHexString(b & 0xFF)`, a "0" in front of a single digit,
   * upper-cased, and a space.
   */
  method WriteByte(b: byte) returns (text: string)
    ensures text == ByteText(b)
  {
    var hexChar := RawHex(b as nat);
    if |hexChar| == 1 {
      hexChar := "0" + hexChar;
    }
    JavaByteText(b);
    text := UpperCase(hexChar) + " ";
  }

  /** What `toHexString(byte[])` returns: the bytes' texts one after another. */
  function SpacedHex(bs: seq<byte>): (s: string)
    ensures |s| == 3 * |bs|
  {
    if bs == [] then "" else SpacedHex(bs[..|bs| - 1]) + ByteText(bs[|bs| - 1])
  }

  /** `toHexString(byte[])`. */
  method ToHexString(buffer: seq<byte>) returns (bufferString: string)
    ensures bufferString == SpacedHex(buffer)
  {
    bufferString := "";
    for i := 0 to |buffer|
      invariant bufferString == SpacedHex(buffer[..i])
    {
      var text := WriteByte(buffer[i]);
      assert buffer[..i + 1] == buffer[..i] + [buffer[i]];
      SpacedHexAppend(buffer[..i], buffer[i]);
      bufferString := bufferString + text;
    }
    assert buffer[..|buffer|] == buffer;
  }

  /** Three characters per byte: its high digit, its low digit, a space. */
  lemma {:induction false} SpacedHexAt(bs: seq<byte>)
    ensures forall k :: 0 <= k < |bs| ==>
      SpacedHex(bs)[3 * k] == UpperDigit(bs[k] as nat / 16) &&
      SpacedHex(bs)[3 * k + 1] == UpperDigit(bs[k] as nat % 16) &&
      SpacedHex(bs)[3 * k + 2] == ' '
    decreases |bs|
  {
    if bs != [] {
      var init := bs[..|bs| - 1];
      SpacedHexAt(init);
      var s, si := SpacedHex(bs), SpacedHex(init);
      forall k | 0 <= k < |bs|
        ensures s[3 * k] == UpperDigit(bs[k] as nat / 16) && s[3 * k + 1] == UpperDigit(bs[k] as nat % 16) && s[3 * k + 2] == ' '
      {
        if k < |init| {
          assert bs[k] == init[k];
          assert s[3 * k] == si[3 * k] && s[3 * k + 1] == si[3 * k + 1] && s[3 * k + 2] == si[3 * k + 2];
        }
      }
    }
  }

  lemma SpacedHexAppend(bs: seq<byte>, b: byte)
    ensures SpacedHex(bs + [b]) == SpacedHex(bs) + ByteText(b)
  {
    assert (bs + [b])[..|bs|] == bs;
  }

  lemma {:induction false} SpacedHexConcat(a: seq<byte>, b: seq<byte>)
    ensures SpacedHex(a + b) == SpacedHex(a) + SpacedHex(b)
    decreases |b|
  {
    if b == [] {
      assert a + b == a;
    } else {
      var init, last := b[..|b| - 1], b[|b| - 1];
      assert b == init + [last];
      assert a + b == (a + init) + [last];
      SpacedHexConcat(a, init);
      SpacedHexAppend(a + init, last);
      SpacedHexAppend(init, last);
      assert SpacedHex(a) + SpacedHex(init) + ByteText(last) == SpacedHex(a) + (SpacedHex(init) + ByteText(last));
    }
  }

  /** The text of one byte holds its two digits, high first. */
  lemma NibblesOfByteText(b: byte)
    ensures Nibbles(ByteText(b)) == [b as nat / 16, b as nat % 16]
  {
    var t := ByteText(b);
    assert t[..0] == [];
    assert t[..1] == [t[0]];
    assert t[..2] == t[..1] + [t[1]];
    assert t[..3] == t;
    NibblesStep(t, 0);
    NibblesStep(t, 1);
    NibblesStep(t, 2);
  }

  /** The text of `bs` holds exactly the two digits of each byte, high first. */
  lemma {:induction false} NibblesOfSpacedHex(bs: seq<byte>)
    ensures |Nibbles(SpacedHex(bs))| == 2 * |bs|
    ensures forall k :: 0 <= k < |bs| ==>
      Nibbles(SpacedHex(bs))[2 * k] == bs[k] as nat / 16 && Nibbles(SpacedHex(bs))[2 * k + 1] == bs[k] as nat % 16
    decreases |bs|
  {
    if bs != [] {
      var init := bs[..|bs| - 1];
      var b := bs[|bs| - 1];
      NibblesOfSpacedHex(init);
      NibblesConcat(SpacedHex(init), ByteText(b));
      NibblesOfByteText(b);
      var ds := Nibbles(SpacedHex(bs));
      var di := Nibbles(SpacedHex(init));
      assert ds == di + [b as nat / 16, b as nat % 16];
      forall k | 0 <= k < |bs|
        ensures ds[2 * k] == bs[k] as nat / 16 && ds[2 * k + 1] == bs[k] as nat % 16
      {
        if k < |init| {
          assert bs[k] == init[k];
          assert ds[2 * k] == di[2 * k] && ds[2 * k + 1] == di[2 * k + 1];
        } else {
          assert bs[k] == b && 2 * k == |di|;
        }
      }
    }
  }

  /** `toByteArray` reads back what `toHexString(byte[])` writes. */
  lemma SpacedHexRoundTrip(bs: seq<byte>)
    ensures PermissiveDecode(SpacedHex(bs)) == bs
  {
    NibblesOfSpacedHex(bs);
    var ds := Nibbles(SpacedHex(bs));
    forall k | 0 <= k < |bs| ensures PermissiveDecode(SpacedHex(bs))[k] == bs[k] {
      assert PairByte(ds, k) == ((16 * (bs[k] as nat / 16) + bs[k] as nat % 16) as byte);
    }
  }

  /** The lines `logBuffer` hands to `logMsg`: the texts of 16 bytes at a time, the last line holding the rest. */
  function LogLines(bs: seq<byte>): seq<string>
    decreases |bs|
  {
    if bs == [] then []
    else if |bs| <= 16 then [SpacedHex(bs)]
    else [SpacedHex(bs[..16])] + LogLines(bs[16..])
  }

  lemma SpacedHexSnoc(bs: seq<byte>, start: nat, i: nat)
    requires start <= i < |bs|
    ensures SpacedHex(bs[start .. i + 1]) == SpacedHex(bs[start .. i]) + ByteText(bs[i])
  {
    assert bs[start .. i + 1][..i - start] == bs[start .. i];
  }

  /**
   * `logBuffer`: a new line starts before every sixteenth byte, and a line is
   * only emitted when it is not empty. (`bufferString != ""` compares
   * references in Java; the only empty value it ever holds is the literal
   * itself, so the comparison is an emptiness test.) A negative length logs
   * nothing.
   */
  method LogBuffer(buffer: seq<byte>, bufferLength: int) returns (lines: seq<string>)
    requires bufferLength <= |buffer|
    ensures lines == LogLines(buffer[..if bufferLength < 0 then 0 else bufferLength])
  {
    ghost var bs := buffer[..if bufferLength < 0 then 0 else bufferLength];
    ghost var start := 0;  // where the bytes of `bufferString` begin
    lines := [];
    var bufferString := "";
    var i := 0;
    while i < bufferLength
      invariant LogProgress(bs, i, lines, start, bufferString)
      decreases bufferLength - i
    {
      var text := WriteByte(buffer[i]);
      assert bs[i] == buffer[i];
      LogStep(bs, i, lines, start, bufferString);
      if i % 16 == 0 {
        if bufferString != "" {
          lines := lines + [bufferString];
          bufferString := "";
          start := i;
        }
      }
      bufferString := bufferString + text;
      i := i + 1;
    }
    LogDone(bs, i, lines, start, bufferString);
    if bufferString != "" {
      lines := lines + [bufferString];
    }
  }

  /**
   * Where `logBuffer` stands after `i` of the bytes `bs`: the lines emitted so
   * far are those of the first `start` bytes, a multiple of 16, and
   * `bufferString` holds the text of the bytes from there on, at most 16.
   */
  ghost predicate LogProgress(bs: seq<byte>, i: nat, lines: seq<string>, start: nat, bufferString: string) {
    && i <= |bs|
    && start == 16 * |lines|
    && (if i == 0 then start == 0 else start < i <= start + 16)
    && lines == LogLines(bs[..start])
    && bufferString == SpacedHex(bs[start .. i])
  }

  /**
   * One turn of the loop: at a multiple of 16 the pending text is emitted
   * (when there is any), then byte `i`'s text is appended.
   */
  lemma LogStep(bs: seq<byte>, i: nat, lines: seq<string>, start: nat, bufferString: string)
    requires LogProgress(bs, i, lines, start, bufferString) && i < |bs|
    ensures i % 16 == 0 && bufferString != "" ==>
      LogProgress(bs, i + 1, lines + [bufferString], i, "" + ByteText(bs[i]))
    ensures !(i % 16 == 0 && bufferString != "") ==>
      LogProgress(bs, i + 1, lines, start, bufferString + ByteText(bs[i]))
  {
    if i > 0 {
      GroupEnd(i, |lines|);
    }
    if i % 16 == 0 && bufferString != "" {
      LineBreak(bs, lines, i, bufferString);
      SpacedHexSnoc(bs, i, i);
    } else {
      SpacedHexSnoc(bs, start, i);
    }
  }

  /** After the last byte, emitting the pending text (when there is any) completes the lines of all the bytes. */
  lemma LogDone(bs: seq<byte>, i: nat, lines: seq<string>, start: nat, bufferString: string)
    requires LogProgress(bs, i, lines, start, bufferString) && i >= |bs|
    ensures bufferString != "" ==> lines + [bufferString] == LogLines(bs)
    ensures bufferString == "" ==> lines == LogLines(bs)
  {
    assert bs[..i] == bs;
    if bufferString != "" {
      LineBreak(bs, lines, i, bufferString);
    }
  }

  /** Closing the current line, which started at byte `16 * |lines|`, after byte `i - 1`. */
  lemma LineBreak(bs: seq<byte>, lines: seq<string>, i: nat, bufferString: string)
    requires 16 * |lines| < i <= 16 * |lines| + 16 && i <= |bs|
    requires lines == LogLines(bs[..16 * |lines|])
    requires bufferString == SpacedHex(bs[16 * |lines| .. i])
    ensures lines + [bufferString] == LogLines(bs[..i])
  {
    var m := |lines|;
    LogLinesLast(bs[..i], m);
    assert bs[..i][..16 * m] == bs[..16 * m] && bs[..i][16 * m ..] == bs[16 * m .. i];
  }

  /**
   * Bytes whose last one lies in line `m` make the lines of the first `m`
   * full groups of sixteen and one line more.
   */
  lemma {:induction false} LogLinesLast(bs: seq<byte>, m: nat)
    requires 16 * m < |bs| <= 16 * m + 16
    ensures LogLines(bs) == LogLines(bs[..16 * m]) + [SpacedHex(bs[16 * m ..])]
    decreases m
  {
    if m == 0 {
      assert bs[..0] == [];
      assert bs[0..] == bs;
    } else {
      var rest, front := bs[16..], bs[..16 * m];
      LogLinesLast(rest, m - 1);
      assert rest[16 * (m - 1) ..] == bs[16 * m ..];
      if m == 1 {
        assert rest[..0] == [];
      } else {
        assert front[..16] == bs[..16] && front[16..] == rest[..16 * (m - 1)];
      }
    }
  }

  /** Within a group of 16 positions, only the last is a multiple of 16. */
  lemma GroupEnd(i: int, n: nat)
    requires 16 * n < i <= 16 * n + 16
    ensures i % 16 == 0 <==> i == 16 * n + 16
  {
    assert i == 16 * (i / 16) + i % 16;
  }

  /** Glued together, the lines are the buffer's text; no line is empty or longer than 16 bytes' text. */
  lemma {:induction false} LogLinesCover(bs: seq<byte>)
    ensures Concat(LogLines(bs)) == SpacedHex(bs)
    ensures forall j :: 0 <= j < |LogLines(bs)| ==> 3 <= |LogLines(bs)[j]| <= 48
    decreases |bs|
  {
    if |bs| > 16 {
      var rest := bs[16..];
      LogLinesCover(rest);
      var lines := LogLines(bs);
      assert lines[1..] == LogLines(rest);
      SpacedHexConcat(bs[..16], rest);
      assert bs[..16] + rest == bs;
    } else if bs != [] {
      assert [SpacedHex(bs)][1..] == [];
    }
  }

  // ---------------------------------------------------------------------------
  // The state-change listener installed by Init
  // ---------------------------------------------------------------------------

  /**
   * The names the listener looks up for a state change: a state outside
   * `unknown..specific` is named as `unknown`. (The listener only builds a
   * text from them, which it never passes on.)
   */
  function StateChangeLabels(prevState: int, currState: int, unknown: int, specific: int): (labels: (string, string))
    requires StateCodesIndexLabels(unknown, specific)
    ensures labels.0 in STATE_STRINGS && labels.1 in STATE_STRINGS
    ensures unknown <= prevState <= specific ==> labels.0 == STATE_STRINGS[prevState]
    ensures !(unknown <= prevState <= specific) ==> labels.0 == STATE_STRINGS[unknown]
    ensures unknown <= currState <= specific ==> labels.1 == STATE_STRINGS[currState]
    ensures !(unknown <= currState <= specific) ==> labels.1 == STATE_STRINGS[unknown]
  {
    (StateLabel(prevState, unknown, specific), StateLabel(currState, unknown, specific))
  }

  // ---------------------------------------------------------------------------
  // TransmitTask.doInBackground
  // ---------------------------------------------------------------------------

  /** The record `TransmitTask` publishes for one command; `None` stands for Java's `null`. */
  datatype TransmitProgress = TransmitProgress(
    controlCode: int,
    command: Option<seq<byte>>,
    commandLength: int,
    response: Option<seq<byte>>,
    responseLength: int,
    e: Option<string>)

  /** The reader call made for one decoded command. */
  function CommandRequest(slotNum: int, controlCode: int, command: seq<byte>): Request {
    Request(if controlCode < 0 then TransmitApdu else Control(controlCode),
            slotNum, command, |command|, RESPONSE_CAPACITY)
  }

  /** The record published after the reader answered `reply` to `request`. */
  function ProgressAfter(controlCode: int, request: Request, reply: Reply): TransmitProgress {
    match reply
    case Returned(length, written) =>
      TransmitProgress(controlCode, Some(request.command), |request.command|,
                       Some(BufferAfter(RESPONSE_CAPACITY, written)), length, None)
    case Threw(message) =>
      TransmitProgress(controlCode, None, 0, None, 0, Some(message))
  }

  /**
   * One command of the batch: a `transmit` when the control code is negative,
   * a `control` otherwise, into a fresh 300-byte buffer; the record holds the
   * command and the response, or only the exception when the call threw.
   * `n` counts the reader calls the batch made before this one.
   */
  method TransmitCommand(slotNum: int, controlCode: int, command: seq<byte>, reader: ReaderOracle, n: nat)
    returns (request: Request, record: TransmitProgress)
    ensures request == CommandRequest(slotNum, controlCode, command)
    ensures record == ProgressAfter(controlCode, request, reader(n, request))
  {
    if controlCode < 0 {
      // transmit an APDU
      request := Request(TransmitApdu, slotNum, command, |command|, RESPONSE_CAPACITY);
    } else {
      // transmit a control command
      request := Request(Control(controlCode), slotNum, command, |command|, RESPONSE_CAPACITY);
    }
    var reply := reader(n, request);
    match reply {
      case Returned(responseLength, written) =>
        var response := BufferAfter(RESPONSE_CAPACITY, written);
        record := TransmitProgress(controlCode, Some(command), |command|, Some(response), responseLength, None);
      case Threw(message) =>
        record := TransmitProgress(controlCode, None, 0, None, 0, Some(message));
    }
  }

  /**
   * `TransmitTask.doInBackground`: for every piece of `commandString` between
   * line feeds, in order, decode it, make one reader call into a fresh
   * 300-byte buffer and publish one record, whether the call returned or threw.
   * `requests` lists the reader calls made, `progress` the published records.
   */
  method TransmitBatch(slotNum: int, controlCode: int, commandString: string, reader: ReaderOracle)
    returns (requests: seq<Request>, progress: seq<TransmitProgress>)
    ensures |requests| == |progress| == |Split(commandString, '\n')|
    ensures forall k :: 0 <= k < |requests| ==>
      requests[k] == CommandRequest(slotNum, controlCode, PermissiveDecode(Split(commandString, '\n')[k]))
    ensures forall k :: 0 <= k < |progress| ==>
      progress[k] == ProgressAfter(controlCode, requests[k], reader(k, requests[k]))
  {
    requests, progress := [], [];
    ghost var pieces: seq<string> := [];
    var foundIndex := 0;
    var startIndex := 0;
    var more := true;
    while more
      invariant more ==> startIndex <= |commandString|
      invariant more ==> Split(commandString, '\n') == pieces + Split(commandString[startIndex..], '\n')
      invariant !more ==> Split(commandString, '\n') == pieces
      invariant Published(slotNum, controlCode, reader, pieces, requests, progress)
      decreases if more then |commandString| + 1 - startIndex else 0
    {
      // Find the line feed
      foundIndex := IndexOf(commandString, '\n', startIndex);
      var piece: string;
      if foundIndex >= 0 {
        piece := commandString[startIndex..foundIndex];
      } else {
        piece := commandString[startIndex..];
      }
      BatchStep(commandString, pieces, startIndex, foundIndex, piece);
      var command := ToByteArray(piece);

      // Set the next start index
      startIndex := foundIndex + 1;

      var request, record := TransmitCommand(slotNum, controlCode, command, reader, |requests|);
      PublishedSnoc(slotNum, controlCode, reader, pieces, requests, progress, piece, command, request, record);
      requests := requests + [request];
      progress := progress + [record];
      pieces := pieces + [piece];
      more := foundIndex >= 0;
    }
  }

  /** Cutting off the next piece keeps the pieces met so far, that piece and the rest, together, the whole batch. */
  lemma BatchStep(cs: string, pieces: seq<string>, startIndex: nat, foundIndex: int, piece: string)
    requires startIndex <= |cs|
    requires Split(cs, '\n') == pieces + Split(cs[startIndex..], '\n')
    requires foundIndex == IndexOf(cs, '\n', startIndex)
    requires piece == if foundIndex >= 0 then cs[startIndex..foundIndex] else cs[startIndex..]
    ensures foundIndex >= 0 ==> Split(cs, '\n') == (pieces + [piece]) + Split(cs[foundIndex + 1..], '\n')
    ensures foundIndex < 0 ==> Split(cs, '\n') == pieces + [piece]
  {
    if foundIndex >= 0 {
      BatchStepNext(cs, pieces, startIndex, foundIndex);
    } else {
      BatchStepLast(cs, pieces, startIndex);
    }
  }

  /** Cutting off the piece before the next line feed: the pieces met so far, that piece and the rest make the batch. */
  lemma BatchStepNext(cs: string, pieces: seq<string>, startIndex: nat, foundIndex: nat)
    requires startIndex <= foundIndex < |cs| && cs[foundIndex] == '\n'
    requires forall i :: startIndex <= i < foundIndex ==> cs[i] != '\n'
    requires Split(cs, '\n') == pieces + Split(cs[startIndex..], '\n')
    ensures Split(cs, '\n') == (pieces + [cs[startIndex..foundIndex]]) + Split(cs[foundIndex + 1..], '\n')
  {
    SplitFromNext(cs, '\n', startIndex, foundIndex);
    var piece, later := cs[startIndex..foundIndex], Split(cs[foundIndex + 1..], '\n');
    assert pieces + ([piece] + later) == (pieces + [piece]) + later;
  }

  /** With no line feed left, the rest is the last piece of the batch. */
  lemma BatchStepLast(cs: string, pieces: seq<string>, startIndex: nat)
    requires startIndex <= |cs|
    requires forall i :: startIndex <= i < |cs| ==> cs[i] != '\n'
    requires Split(cs, '\n') == pieces + Split(cs[startIndex..], '\n')
    ensures Split(cs, '\n') == pieces + [cs[startIndex..]]
  {
    SplitFromLast(cs, '\n', startIndex);
  }

  /**
   * The calls made and records published for `pieces`: one reader call per
   * piece, in order, with the piece decoded, and one record per call.
   */
  predicate Published(slotNum: int, controlCode: int, reader: ReaderOracle,
                      pieces: seq<string>, requests: seq<Request>, progress: seq<TransmitProgress>)
  {
    && |requests| == |progress| == |pieces|
    && (forall k :: 0 <= k < |pieces| ==>
          requests[k] == CommandRequest(slotNum, controlCode, PermissiveDecode(pieces[k])))
    && (forall k :: 0 <= k < |pieces| ==>
          progress[k] == ProgressAfter(controlCode, requests[k], reader(k, requests[k])))
  }

  lemma PublishedSnoc(slotNum: int, controlCode: int, reader: ReaderOracle,
                      pieces: seq<string>, requests: seq<Request>, progress: seq<TransmitProgress>,
                      piece: string, command: seq<byte>, request: Request, record: TransmitProgress)
    requires Published(slotNum, controlCode, reader, pieces, requests, progress)
    requires command == PermissiveDecode(piece)
    requires request == CommandRequest(slotNum, controlCode, command)
    requires record == ProgressAfter(controlCode, request, reader(|requests|, request))
    ensures Published(slotNum, controlCode, reader, pieces + [piece], requests + [request], progress + [record])
  {
  }

  /**
   * The batch has one piece per line feed plus one, in input order: glued
   * back with line feeds the pieces are the command text, none holds a line
   * feed, and a trailing line feed gives a last, empty piece.
   */
  lemma BatchPieces(commandString: string)
    ensures |Split(commandString, '\n')| == Count(commandString, '\n') + 1
    ensures Join(Split(commandString, '\n'), '\n') == commandString
    ensures forall k, i :: 0 <= k < |Split(commandString, '\n')| && 0 <= i < |Split(commandString, '\n')[k]| ==>
      Split(commandString, '\n')[k][i] != '\n'
    ensures |commandString| > 0 && commandString[|commandString| - 1] == '\n' ==>
      Split(commandString, '\n')[|Split(commandString, '\n')| - 1] == []
  {
    SplitCount(commandString, '\n');
    JoinSplit(commandString, '\n');
    SplitPiecesFree(commandString, '\n');
    if |commandString| > 0 && commandString[|commandString| - 1] == '\n' {
      TrailingSeparator(commandString);
    }
  }

  lemma {:induction false} TrailingSeparator(s: string)
    requires s == [] || s[|s| - 1] == '\n'
    ensures Split(s, '\n')[|Split(s, '\n')| - 1] == []
    decreases |s|
  {
    if s != [] {
      var j := IndexOf(s, '\n', 0);
      SplitAtFirst(s, '\n', j);
      TrailingSeparator(s[j + 1..]);
    }
  }
}
