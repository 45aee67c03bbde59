/**
 * `src/index.tsx`: the TypeScript face of the module. Byte lists travel to
 * the native side as hex text (`hexToHexString`) and come back as hex text
 * that `hexStringToHex` turns into numbers again.
 */
module ReaderJs {
  import opened Hex
  import opened Strings
  import opened SmartCard
  import opened ReaderNative

  /** A byte list as the TypeScript side holds it: numbers in 0..255. */
  function Values(bs: seq<byte>): (vs: seq<nat>)
    ensures |vs| == |bs|
    ensures forall i :: 0 <= i < |bs| ==> vs[i] == bs[i] as nat && vs[i] < 256
  {
    seq(|bs|, i requires 0 <= i < |bs| => bs[i] as nat)
  }

  // ---------------------------------------------------------------------------
  // hexStringToHex
  // ---------------------------------------------------------------------------

  /** `parseInt(hexStr.substr(2 * k, 2), 16)` on a text of hex digits. */
  function ChunkValue(s: string, k: nat): nat
    requires AllHexDigits(s) && 2 * k < |s|
  {
    var chunk := Substr(s, 2 * k, 2);
    assert AllHexDigits(chunk) by {
      forall i | 0 <= i < |chunk| ensures IsHexDigit(chunk[i]) {
        assert chunk[i] == s[2 * k + i];
      }
    }
    HexNumber(chunk)
  }

  /** What `hexStringToHex` returns: one number per two characters, the last from a lone digit when the length is odd. */
  function JsDecode(s: string): seq<nat>
    requires AllHexDigits(s)
  {
    seq((|s| + 1) / 2, k requires 0 <= k < (|s| + 1) / 2 => ChunkValue(s, k))
  }

  /** `hexStringToHex`: `i` steps by two, pushing the value of each chunk. */
  method HexStringToHex(hexStr: string) returns (bytes: seq<nat>)
    requires AllHexDigits(hexStr)
    ensures bytes == JsDecode(hexStr)
  {
    bytes := [];
    var i := 0;
    while i < |hexStr|
      invariant i == 2 * |bytes| && |bytes| <= (|hexStr| + 1) / 2
      invariant forall k :: 0 <= k < |bytes| ==> bytes[k] == ChunkValue(hexStr, k)
      decreases |hexStr| - i
    {
      bytes := bytes + [ChunkValue(hexStr, i / 2)];
      i := i + 2;
    }
  }

  /**
   * `hexStringToHex` on hex digits: ceil(len / 2) numbers; number k is 16
   * times digit 2k plus digit 2k+1, and an odd last digit stands alone.
   */
  lemma JsDecodeValues(s: string)
    requires AllHexDigits(s)
    ensures |JsDecode(s)| == (|s| + 1) / 2
    ensures forall k :: 0 <= k && 2 * k + 1 < |s| ==>
      JsDecode(s)[k] == 16 * DigitValue(s[2 * k]) + DigitValue(s[2 * k + 1])
    ensures |s| % 2 == 1 ==> JsDecode(s)[|s| / 2] == DigitValue(s[|s| - 1])
  {
    forall k | 0 <= k && 2 * k + 1 < |s|
      ensures JsDecode(s)[k] == 16 * DigitValue(s[2 * k]) + DigitValue(s[2 * k + 1])
    {
      assert Substr(s, 2 * k, 2) == [s[2 * k], s[2 * k + 1]];
      HexNumberOfPair(s[2 * k], s[2 * k + 1]);
    }
    if |s| % 2 == 1 {
      var k := |s| / 2;
      assert 2 * k == |s| - 1;
      assert Substr(s, 2 * k, 2) == [s[|s| - 1]];
      HexNumberOfDigit(s[|s| - 1]);
    }
  }

  /** Reading back the text `bytesToHexString` or `hexToHexString` writes gives the numbers of the bytes. */
  lemma JsRoundTrip(bs: seq<byte>)
    ensures JsDecode(HexEncode(bs)) == Values(bs)
  {
    var s := HexEncode(bs);
    JsDecodeValues(s);
    forall k | 0 <= k < |bs| ensures JsDecode(s)[k] == bs[k] as nat {
      HexEncodeAt(bs, k);
    }
  }

  // ---------------------------------------------------------------------------
  // hexToHexString
  // ---------------------------------------------------------------------------

  /** `v.toString(16).toUpperCase().padStart(2, '0')` is the two digits of `v`. */
  lemma ChunkText(v: byte)
    ensures PadStart(UpperCase(RawHex(v as nat)), 2, '0') == [UpperDigit(v as nat / 16), UpperDigit(v as nat % 16)]
  {
    RawHexOfByte(v);
    UpperOfLowerDigit(v as nat / 16);
    UpperOfLowerDigit(v as nat % 16);
    if v < 16 {
      assert v as nat / 16 == 0;
      assert PadStart(UpperCase(RawHex(v as nat)), 2, '0') == ['0'] + [UpperDigit(v as nat % 16)];
    }
  }

  /** One more byte appends its two digits. */
  lemma HexEncodeSnoc(bs: seq<byte>, b: byte)
    ensures HexEncode(bs + [b]) == HexEncode(bs) + [UpperDigit(b as nat / 16), UpperDigit(b as nat % 16)]
  {
    var e, t := HexEncode(bs + [b]), HexEncode(bs) + [UpperDigit(b as nat / 16), UpperDigit(b as nat % 16)];
    forall j | 0 <= j < |e| ensures e[j] == t[j] {
      if j < 2 * |bs| {
        assert (bs + [b])[j / 2] == bs[j / 2];
      } else {
        assert j / 2 == |bs|;
      }
    }
  }

  /** `hexToHexString`: the same text as the native `bytesToHexString`. */
  method HexToHexString(hex: seq<byte>) returns (r: string)
    ensures r == HexEncode(hex)
  {
    var chars: seq<string> := [];
    for i := 0 to |hex|
      invariant Concat(chars) == HexEncode(hex[..i])
    {
      var chunk := PadStart(UpperCase(RawHex(hex[i] as nat)), 2, '0');
      ChunkText(hex[i]);
      ConcatSnoc(chars, chunk);
      assert hex[..i + 1] == hex[..i] + [hex[i]];
      HexEncodeSnoc(hex[..i], hex[i]);
      chars := chars + [chunk];
    }
    assert hex[..|hex|] == hex;
    r := Concat(chars);
  }

  // ---------------------------------------------------------------------------
  // Reader.Transmit and Reader.ConnectToCard
  // ---------------------------------------------------------------------------

  /**
   * `Reader.Transmit`: the native side receives the command as text and
   * decodes it to exactly the caller's bytes, so the reader is asked to
   * transmit those; the numbers returned are the first `responseLength` bytes
   * of the 300-byte response buffer (zeros past its end, as `copyOfRange`
   * pads). A rejection of the native promise rejects this one.
   */
  method Transmit(native: ReaderModule, slotNum: int, command: seq<byte>, reader: ReaderOracle)
    returns (result: Settlement<seq<nat>>)
    ensures !native.readerCreated ==> result == Rejected("R002", NullPointer)
    ensures native.readerCreated ==>
      var reply := reader(0, TransmitRequest(slotNum, command));
      && (reply.Threw? ==> result == Rejected("R002", Message(reply.message)))
      && (reply.Returned? && reply.length < 0 ==> result == Rejected("R002", NegativeLength(reply.length)))
      && (reply.Returned? && reply.length >= 0 ==>
            result == Resolved(Values(CopyPrefix(BufferAfter(RESPONSE_CAPACITY, reply.written), reply.length).value)))
      && (reply.Returned? && 0 <= reply.length <= RESPONSE_CAPACITY ==>
            result == Resolved(Values(BufferAfter(RESPONSE_CAPACITY, reply.written)[..reply.length])))
  {
    var request := HexToHexString(command);
    StrictRoundTrip(command);
    var response, calls := native.Transmit(slotNum, request, reader);
    match response {
      case Resolved(text) =>
        var bytes := HexStringToHex(text);
        result := Resolved(bytes);
        var reply := reader(0, TransmitRequest(slotNum, command));
        JsRoundTrip(CopyPrefix(BufferAfter(RESPONSE_CAPACITY, reply.written), reply.length).value);
        if reply.length <= RESPONSE_CAPACITY {
          CopyPrefixWithin(BufferAfter(RESPONSE_CAPACITY, reply.written), reply.length);
        }
      case Rejected(code, reason) =>
        result := Rejected(code, reason);
    }
  }

  /**
   * `Reader.ConnectToCard`: the numbers returned are exactly the bytes of the
   * ATR the reader gave; a rejection of the native promise rejects this one.
   */
  method ConnectToCard(native: ReaderModule, slotNum: int, power: PowerReply, protocolError: Option<string>)
    returns (result: Settlement<seq<nat>>)
    ensures !native.readerCreated ==> result == Rejected("R002", NullPointer)
    ensures native.readerCreated && power.PowerThrew? ==> result == Rejected("R002", Message(power.message))
    ensures native.readerCreated && !power.PowerThrew? && protocolError.Some? ==>
      result == Rejected("R002", Message(protocolError.value))
    ensures native.readerCreated && power.NoAtr? && protocolError.None? ==> result == Rejected("R002", NullPointer)
    ensures native.readerCreated && power.Atr? && protocolError.None? ==> result == Resolved(Values(power.atr))
  {
    var atr := native.ConnectToCard(slotNum, power, protocolError);
    match atr {
      case Resolved(text) =>
        var bytes := HexStringToHex(text);
        JsRoundTrip(power.atr);
        result := Resolved(bytes);
      case Rejected(code, reason) =>
        result := Rejected(code, reason);
    }
  }
}
