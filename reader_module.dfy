/**
 * `ReaderModule.java`: the native module the TypeScript side talks to.
 *
 * Its codecs are a strict pair-wise decoder (`hexStringToBytes`) and an
 * encoder writing two upper-case digits per byte (`bytesToHexString`). Its
 * state is the vendor reader it created, whether that reader is open, the
 * device `Init` found and the promise `Init` was given; the USB permission
 * broadcast settles that promise.
 */
module ReaderNative {
  import opened Hex
  import opened SmartCard
  import AcsModuleTemp

  // ---------------------------------------------------------------------------
  // bytesToHexString
  // ---------------------------------------------------------------------------

  const HEX_ARRAY: string := "0123456789ABCDEF"

  /** The table holds the upper-case digit of each nibble at its index. */
  lemma HexArrayDigit(d: Nibble)
    ensures HEX_ARRAY[d] == UpperDigit(d)
  {
    assert HEX_ARRAY == seq(16, k requires 0 <= k < 16 => UpperDigit(k));
  }

  /** Character `j` of the text of `bs`: the high digit of byte `j / 2` at even `j`, its low digit at odd `j`. */
  function HexDigitAt(bs: seq<byte>, j: nat): char
    requires j < 2 * |bs|
  {
    var v := bs[j / 2] as nat;
    UpperDigit(if j % 2 == 0 then v / 16 else v % 16)
  }

  /** What `bytesToHexString` returns: two upper-case hex digits per byte, high half first. */
  function HexEncode(bs: seq<byte>): (s: string)
    ensures |s| == 2 * |bs|
    ensures AllUpperHexDigits(s) && AllHexDigits(s)
  {
    seq(2 * |bs|, j requires 0 <= j < 2 * |bs| => HexDigitAt(bs, j))
  }

  /** Characters 2i and 2i+1 are the digits of the high and the low half of byte i. */
  lemma HexEncodeAt(bs: seq<byte>, i: nat)
    requires i < |bs|
    ensures HexEncode(bs)[2 * i] == UpperDigit(bs[i] as nat / 16)
    ensures HexEncode(bs)[2 * i + 1] == UpperDigit(bs[i] as nat % 16)
    ensures DigitValue(HexEncode(bs)[2 * i]) == bs[i] as nat / 16
    ensures DigitValue(HexEncode(bs)[2 * i + 1]) == bs[i] as nat % 16
  {
    assert (2 * i) / 2 == i && (2 * i + 1) / 2 == i;
  }

  /** `bytesToHexString`: fill a character array two digits per byte. */
  method BytesToHexString(bytes: seq<byte>) returns (s: string)
    ensures s == HexEncode(bytes)
  {
    var hexChars := new char[|bytes| * 2];
    for i := 0 to |bytes|
      invariant forall j :: 0 <= j < 2 * i ==> hexChars[j] == HexDigitAt(bytes, j)
    {
      var v := bytes[i] as int;  // bytes[i] & 0xFF
      HexArrayDigit(v / 16);
      HexArrayDigit(v % 16);
      hexChars[i * 2] := HEX_ARRAY[v / 16];      // v >>> 4
      hexChars[i * 2 + 1] := HEX_ARRAY[v % 16];  // v & 0x0F
      assert (2 * i) / 2 == i && (2 * i + 1) / 2 == i;
    }
    s := hexChars[..];
  }

  // ---------------------------------------------------------------------------
  // hexStringToBytes
  // ---------------------------------------------------------------------------

  /**
   * Byte `k` as `hexStringToBytes` computes it: `Character.digit` of
   * characters 2k and 2k+1 (each -1 when not a hex digit), the first shifted
   * left by four, added, and cast to a byte.
   */
  function StrictByte(s: string, k: nat): byte
    requires 2 * k + 1 < |s|
  {
    ((16 * JavaDigit(s[2 * k]) + JavaDigit(s[2 * k + 1])) % 256) as byte
  }

  /**
   * What `hexStringToBytes` returns or throws: on an odd length the last
   * round reads one character past the end.
   */
  function StrictDecode(s: string): (r: Outcome<seq<byte>>)
    ensures r.Thrown? <==> |s| % 2 == 1
    ensures r.Thrown? ==> r.reason == IndexOutOfRange(|s|)
    ensures r.Ok? ==> |r.value| == |s| / 2
  {
    if |s| % 2 == 1 then Thrown(IndexOutOfRange(|s|))
    else Ok(seq(|s| / 2, k requires 0 <= k < |s| / 2 => StrictByte(s, k)))
  }

  /** `hexStringToBytes`: one byte per pair of characters, `i` stepping by two. */
  method HexStringToBytes(hex: string) returns (result: Outcome<seq<byte>>)
    ensures result == StrictDecode(hex)
  {
    var len := |hex|;
    var data := new byte[len / 2];
    var i := 0;
    ghost var n := 0;  // i / 2
    while i < len
      invariant i == 2 * n && i <= len
      invariant forall k :: 0 <= k < n ==> data[k] == StrictByte(hex, k)
      decreases len - i
    {
      if i + 1 >= len {
        // hex.charAt(i + 1) throws
        assert len % 2 == 1;
        result := Thrown(IndexOutOfRange(i + 1));
        return;
      }
      data[i / 2] := ((16 * JavaDigit(hex[i]) + JavaDigit(hex[i + 1])) % 256) as byte;
      i := i + 2;
      n := n + 1;
    }
    assert data[..] == StrictDecode(hex).value;
    result := Ok(data[..]);
  }

  /** On an even number of hex digits, byte k is 16 times digit 2k plus digit 2k+1, in either case. */
  lemma StrictDecodeDigits(s: string)
    requires AllHexDigits(s) && |s| % 2 == 0
    ensures StrictDecode(s).Ok? && |StrictDecode(s).value| == |s| / 2
    ensures forall k :: 0 <= k < |s| / 2 ==>
      StrictDecode(s).value[k] as int == 16 * DigitValue(s[2 * k]) + DigitValue(s[2 * k + 1])
  {
  }

  /** Upper- and lower-case digits decode alike, and so does any other text. */
  lemma StrictDecodeIgnoresCase(s: string)
    ensures StrictDecode(UpperCase(s)) == StrictDecode(s)
  {
    if |s| % 2 == 0 {
      var u := UpperCase(s);
      forall k | 0 <= k < |s| / 2 ensures StrictByte(u, k) == StrictByte(s, k) {
        ToUpperKeepsDigit(s[2 * k]);
        ToUpperKeepsDigit(s[2 * k + 1]);
      }
      assert StrictDecode(u).value == StrictDecode(s).value;
    }
  }

  /** Decoding the text of any bytes gives them back. */
  lemma StrictRoundTrip(bs: seq<byte>)
    ensures StrictDecode(HexEncode(bs)) == Ok(bs)
  {
    var s := HexEncode(bs);
    forall k | 0 <= k < |bs| ensures StrictByte(s, k) == bs[k] {
      HexEncodeAt(bs, k);
    }
    assert StrictDecode(s).value == bs;
  }

  /** One byte, made of two hex digits, is written back as those digits upper-cased. */
  lemma EncodeDecodedPair(s: string, bs: seq<byte>, k: nat)
    requires 2 * k + 1 < |s| && IsHexDigit(s[2 * k]) && IsHexDigit(s[2 * k + 1]) && k < |bs|
    requires bs[k] as int == 16 * DigitValue(s[2 * k]) + DigitValue(s[2 * k + 1])
    ensures HexEncode(bs)[2 * k] == ToUpper(s[2 * k])
    ensures HexEncode(bs)[2 * k + 1] == ToUpper(s[2 * k + 1])
  {
    HexEncodeAt(bs, k);
    NibbleHalves(DigitValue(s[2 * k]), DigitValue(s[2 * k + 1]));
    ToUpperKeepsDigit(s[2 * k]);
    ToUpperKeepsDigit(s[2 * k + 1]);
    UpperDigitOfValue(ToUpper(s[2 * k]));
    UpperDigitOfValue(ToUpper(s[2 * k + 1]));
  }

  /** Encoding the bytes of an even number of hex digits gives the digits back, upper-cased. */
  lemma StrictEncodeOfDecode(s: string)
    requires AllHexDigits(s) && |s| % 2 == 0
    ensures HexEncode(StrictDecode(s).value) == UpperCase(s)
  {
    var bs := StrictDecode(s).value;
    var e, u := HexEncode(bs), UpperCase(s);
    StrictDecodeDigits(s);
    forall j | 0 <= j < |s| ensures e[j] == u[j] {
      var k := j / 2;
      EncodeDecodedPair(s, bs, k);
      if j % 2 == 0 {
        assert j == 2 * k;
      } else {
        assert j == 2 * k + 1;
      }
    }
  }

  /** On what both accept, the strict decoder agrees with `toByteArray`. */
  lemma StrictAgreesWithPermissive(s: string)
    requires AllHexDigits(s) && |s| % 2 == 0
    ensures StrictDecode(s) == Ok(AcsModuleTemp.PermissiveDecode(s))
  {
    AcsModuleTemp.NibblesOfDigits(s);
    StrictDecodeDigits(s);
    var ds := AcsModuleTemp.Nibbles(s);
    var p := AcsModuleTemp.PermissiveDecode(s);
    assert |p| == |s| / 2;
    forall k | 0 <= k < |s| / 2 ensures p[k] == StrictDecode(s).value[k] {
      assert p[k] == AcsModuleTemp.PairByte(ds, k);
    }
    assert p == StrictDecode(s).value;
  }

  // ---------------------------------------------------------------------------
  // The state-change listener
  // ---------------------------------------------------------------------------

  /** The parameters of the `onStateChange` event. */
  datatype StateEvent = StateEvent(currState: string, prevState: string, slotNum: int)

  /**
   * `stateListener.onStateChange`: both states are clamped into
   * `unknown..specific` and sent by name with the slot number.
   */
  function StateChangeEvent(slotNum: int, prevState: int, currState: int, unknown: int, specific: int): (e: StateEvent)
    requires StateCodesIndexLabels(unknown, specific)
    ensures e.slotNum == slotNum
    ensures e.prevState in STATE_STRINGS && e.currState in STATE_STRINGS
    ensures unknown <= prevState <= specific ==> e.prevState == STATE_STRINGS[prevState]
    ensures !(unknown <= prevState <= specific) ==> e.prevState == STATE_STRINGS[unknown]
    ensures unknown <= currState <= specific ==> e.currState == STATE_STRINGS[currState]
    ensures !(unknown <= currState <= specific) ==> e.currState == STATE_STRINGS[unknown]
  {
    var prev := ClampState(prevState, unknown, specific);
    var curr := ClampState(currState, unknown, specific);
    StateEvent(STATE_STRINGS[curr], STATE_STRINGS[prev], slotNum)
  }

  // ---------------------------------------------------------------------------
  // Init, the permission broadcast and setDevice
  // ---------------------------------------------------------------------------

  /** A USB device, known only by its identity. */
  type DeviceId = nat

  const ACTION_USB_PERMISSION: string := "com.reactnativeacs.USB_PERMISSION"

  const NO_DEVICE: Settlement<()> := Rejected("E100", Message("No Device found"))
  const DEVICE_IS_NULL: Settlement<()> := Rejected("E101", Message("Device is null"))
  const PERMISSION_DENIED: Settlement<()> := Rejected("E102", Message("Permission denied for device"))
  const NOT_OPENED: Reason := Message("No reader is opened")

  /** The position of the first device the reader supports, or -1. */
  function FirstSupported(devices: seq<DeviceId>, isSupported: DeviceId -> bool): (r: int)
    ensures -1 <= r < |devices|
    ensures r == -1 ==> forall i :: 0 <= i < |devices| ==> !isSupported(devices[i])
    ensures r >= 0 ==> isSupported(devices[r]) && forall i :: 0 <= i < r ==> !isSupported(devices[i])
    decreases |devices|
  {
    if devices == [] then -1
    else if isSupported(devices[0]) then 0
    else
      var r := FirstSupported(devices[1..], isSupported);
      if r == -1 then -1 else r + 1
  }

  /**
   * How the permission broadcast settles `Init`'s promise: it resolves only
   * when permission was granted for a device the reader supports and
   * opening it did not throw.
   */
  function PermissionOutcome(granted: bool, device: Option<DeviceId>, isSupported: DeviceId -> bool,
                             openError: Option<string>): (s: Settlement<()>)
    ensures s.Resolved? <==> granted && device.Some? && isSupported(device.value) && openError.None?
    ensures !granted ==> s == PERMISSION_DENIED
    ensures granted && device.None? ==> s == DEVICE_IS_NULL
    ensures granted && device.Some? && !isSupported(device.value) ==> s == NO_DEVICE
    ensures granted && device.Some? && isSupported(device.value) && openError.Some? ==>
      s == Rejected("R001", Message(openError.value))
  {
    if !granted then PERMISSION_DENIED
    else if device.None? then DEVICE_IS_NULL
    else if !isSupported(device.value) then NO_DEVICE
    else if openError.Some? then Rejected("R001", Message(openError.value))
    else Resolved(())
  }

  /** What `GetReaderInfo` resolves with. */
  datatype ReaderInfo = ReaderInfo(readerName: string, slotNum: int)

  /**
   * The request `Transmit` hands the reader: an APDU into a 300-byte buffer,
   * the same request the transmit task makes for a negative control code.
   */
  function TransmitRequest(slotNum: int, commandByte: seq<byte>): Request {
    AcsModuleTemp.CommandRequest(slotNum, -1, commandByte)
  }

  class ReaderModule {
    var readerCreated: bool               // `mReader != null`
    var isOpen: bool                      // `mReader.isOpened()`
    var device: Option<DeviceId>          // `this.device`
    var receiverRegistered: bool          // `usbReceiver` has been registered
    var initSettlements: seq<Settlement<()>>  // the calls on the promise of the latest `Init`

    /** Only a reader that exists can be open, and the receiver is registered only once a reader exists. */
    ghost predicate Valid()
      reads this
    {
      (isOpen ==> readerCreated) && (receiverRegistered ==> readerCreated)
    }

    constructor()
      ensures Valid()
      ensures !readerCreated && !isOpen && device.None? && !receiverRegistered && initSettlements == []
    {
      readerCreated, isOpen, device, receiverRegistered, initSettlements := false, false, None, false, [];
    }

    /**
     * `Init`: create a fresh (closed) reader, keep the new promise, and take
     * the first supported device of the list; with no device stored it
     * rejects with E100, otherwise it registers the receiver and asks for
     * permission. `deviceList` is `None` when reading it threw a
     * `NullPointerException`. A device stored by an earlier `Init` stays
     * when the list holds no supported one.
     */
    method Init(deviceList: Option<seq<DeviceId>>, isSupported: DeviceId -> bool)
      returns (permissionRequested: Option<DeviceId>)
      requires Valid()
      modifies this
      ensures Valid() && readerCreated && !isOpen
      ensures deviceList.None? ==>
        device == old(device) && receiverRegistered == old(receiverRegistered) &&
        initSettlements == [NO_DEVICE] && permissionRequested.None?
      ensures deviceList.Some? ==>
        var f := FirstSupported(deviceList.value, isSupported);
        device == (if f >= 0 then Some(deviceList.value[f]) else old(device))
      ensures deviceList.Some? && device.None? ==>
        receiverRegistered == old(receiverRegistered) && initSettlements == [NO_DEVICE] && permissionRequested.None?
      ensures deviceList.Some? && device.Some? ==>
        receiverRegistered && initSettlements == [] && permissionRequested == device
    {
      readerCreated, isOpen := true, false;
      initSettlements := [];
      permissionRequested := None;
      if deviceList.None? {
        // manager.getDeviceList() threw a NullPointerException
        initSettlements := initSettlements + [NO_DEVICE];
        return;
      }
      var devices := deviceList.value;
      var i := 0;
      while i < |devices|
        invariant 0 <= i <= |devices|
        invariant forall j :: 0 <= j < i ==> !isSupported(devices[j])
        invariant device == old(device)
      {
        if isSupported(devices[i]) {
          device := Some(devices[i]);
          break;
        }
        i := i + 1;
      }
      ghost var f := FirstSupported(devices, isSupported);
      assert f >= 0 ==> device == Some(devices[f]) by {
        if f >= 0 && i < |devices| { assert !(i < f) && !(f < i); }
      }
      assert i == |devices| ==> f == -1;
      if device.None? {
        initSettlements := initSettlements + [NO_DEVICE];
      } else {
        receiverRegistered := true;
        permissionRequested := device;
      }
    }

    /**
     * `setDevice`: open the reader on `d` and resolve the promise, or reject
     * with R001 when opening threw (`openError`).
     */
    method SetDevice(d: DeviceId, openError: Option<string>)
      requires Valid() && readerCreated
      modifies this
      ensures Valid() && readerCreated
      ensures device == old(device) && receiverRegistered == old(receiverRegistered)
      ensures openError.None? ==> isOpen && initSettlements == old(initSettlements) + [Resolved(())]
      ensures openError.Some? ==>
        isOpen == old(isOpen) && initSettlements == old(initSettlements) + [Rejected("R001", Message(openError.value))]
    {
      if openError.None? {
        isOpen := true;
        initSettlements := initSettlements + [Resolved(())];
      } else {
        initSettlements := initSettlements + [Rejected("R001", Message(openError.value))];
      }
    }

    /**
     * `usbReceiver.onReceive`: only the permission action is handled; it
     * settles `Init`'s promise once, as `PermissionOutcome` says, and a
     * resolved outcome leaves the reader open.
     */
    method OnReceive(action: string, granted: bool, extraDevice: Option<DeviceId>,
                     isSupported: DeviceId -> bool, openError: Option<string>)
      requires Valid() && receiverRegistered
      modifies this
      ensures Valid() && readerCreated && receiverRegistered && device == old(device)
      ensures action != ACTION_USB_PERMISSION ==>
        isOpen == old(isOpen) && initSettlements == old(initSettlements)
      ensures action == ACTION_USB_PERMISSION ==>
        var outcome := PermissionOutcome(granted, extraDevice, isSupported, openError);
        initSettlements == old(initSettlements) + [outcome] &&
        isOpen == (old(isOpen) || outcome.Resolved?)
    {
      if action == ACTION_USB_PERMISSION {
        if granted {
          if extraDevice.Some? {
            if isSupported(extraDevice.value) {
              SetDevice(extraDevice.value, openError);
            } else {
              initSettlements := initSettlements + [NO_DEVICE];
            }
          } else {
            initSettlements := initSettlements + [DEVICE_IS_NULL];
          }
        } else {
          initSettlements := initSettlements + [PERMISSION_DENIED];
        }
      }
    }

    /** `GetReaderInfo`: the reader's name and slot count when it is open, E004 otherwise. */
    method GetReaderInfo(readerName: string, numSlots: int) returns (s: Settlement<ReaderInfo>)
      requires Valid() && readerCreated
      ensures s.Resolved? <==> isOpen
      ensures isOpen ==> s.value == ReaderInfo(readerName, numSlots)
      ensures !isOpen ==> s == Rejected("E004", NOT_OPENED)
    {
      if isOpen {
        s := Resolved(ReaderInfo(readerName, numSlots));
      } else {
        s := Rejected("E004", NOT_OPENED);
      }
    }

    /** `CloseReader`: `close` is called exactly when the reader is open; afterwards it is closed. */
    method CloseReader() returns (closeCalled: bool)
      requires Valid() && readerCreated
      modifies this
      ensures Valid() && readerCreated && !isOpen
      ensures closeCalled == old(isOpen)
      ensures device == old(device) && receiverRegistered == old(receiverRegistered)
      ensures initSettlements == old(initSettlements)
    {
      closeCalled := false;
      if isOpen {
        isOpen := false;
        closeCalled := true;
      }
    }

    /**
     * `Transmit`: decode the command strictly, make one `transmit` call into
     * a 300-byte buffer, and resolve with the hex of the first
     * `responseLength` bytes; anything thrown on the way rejects with R002.
     * `calls` lists the reader calls made.
     */
    method Transmit(slotNum: int, command: string, reader: ReaderOracle)
      returns (s: Settlement<string>, calls: seq<Request>)
      ensures |command| % 2 == 1 ==> s == Rejected("R002", IndexOutOfRange(|command|)) && calls == []
      ensures |command| % 2 == 0 && !readerCreated ==> s == Rejected("R002", NullPointer) && calls == []
      ensures |command| % 2 == 0 && readerCreated ==>
        var request := TransmitRequest(slotNum, StrictDecode(command).value);
        && calls == [request]
        && (reader(0, request).Threw? ==> s == Rejected("R002", Message(reader(0, request).message)))
        && (reader(0, request).Returned? && reader(0, request).length < 0 ==>
              s == Rejected("R002", NegativeLength(reader(0, request).length)))
        && (reader(0, request).Returned? && reader(0, request).length >= 0 ==>
              s == Resolved(HexEncode(CopyPrefix(BufferAfter(RESPONSE_CAPACITY, reader(0, request).written),
                                                 reader(0, request).length).value)))
    {
      calls := [];
      var commandByte := HexStringToBytes(command);
      if commandByte.Thrown? {
        s := Rejected("R002", commandByte.reason);
        return;
      }
      if !readerCreated {
        // this.mReader.transmit on a null reader
        s := Rejected("R002", NullPointer);
        return;
      }
      var request := TransmitRequest(slotNum, commandByte.value);
      calls := [request];
      match reader(0, request) {
        case Threw(message) =>
          s := Rejected("R002", Message(message));
        case Returned(responseLength, written) =>
          var responseBuffer := BufferAfter(RESPONSE_CAPACITY, written);
          var response := CopyPrefix(responseBuffer, responseLength);
          if response.None? {
            s := Rejected("R002", NegativeLength(responseLength));
          } else {
            var text := BytesToHexString(response.value);
            s := Resolved(text);
          }
      }
    }

    /**
     * `ConnectToCard`: power the card (a warm reset), set the protocol, and
     * resolve with the hex of the ATR; anything thrown on the way, a missing
     * reader and a missing ATR included, rejects with R002. `protocolError`
     * is the message `setProtocol` throws with, if it throws.
     */
    method ConnectToCard(slotNum: int, power: PowerReply, protocolError: Option<string>)
      returns (s: Settlement<string>)
      ensures !readerCreated ==> s == Rejected("R002", NullPointer)
      ensures readerCreated && power.PowerThrew? ==> s == Rejected("R002", Message(power.message))
      ensures readerCreated && !power.PowerThrew? && protocolError.Some? ==>
        s == Rejected("R002", Message(protocolError.value))
      ensures readerCreated && power.NoAtr? && protocolError.None? ==> s == Rejected("R002", NullPointer)
      ensures readerCreated && power.Atr? && protocolError.None? ==> s == Resolved(HexEncode(power.atr))
    {
      if !readerCreated {
        s := Rejected("R002", NullPointer);
        return;
      }
      match power {
        case PowerThrew(message) =>
          s := Rejected("R002", Message(message));
        case NoAtr =>
          if protocolError.Some? {
            s := Rejected("R002", Message(protocolError.value));
          } else {
            // bytesToHexString(null)
            s := Rejected("R002", NullPointer);
          }
        case Atr(atr) =>
          if protocolError.Some? {
            s := Rejected("R002", Message(protocolError.value));
          } else {
            var text := BytesToHexString(atr);
            s := Resolved(text);
          }
      }
    }
  }

  /**
   * With a length within the buffer, the response text is the text of
   * exactly the first `responseLength` bytes the reader wrote (zeros where
   * it wrote fewer), and decodes back to them.
   */
  lemma TransmitResponse(written: seq<byte>, responseLength: int)
    requires 0 <= responseLength <= RESPONSE_CAPACITY
    ensures var response := CopyPrefix(BufferAfter(RESPONSE_CAPACITY, written), responseLength).value;
      && response == BufferAfter(RESPONSE_CAPACITY, written)[..responseLength]
      && |HexEncode(response)| == 2 * responseLength
      && StrictDecode(HexEncode(response)) == Ok(response)
  {
    CopyPrefixWithin(BufferAfter(RESPONSE_CAPACITY, written), responseLength);
    StrictRoundTrip(BufferAfter(RESPONSE_CAPACITY, written)[..responseLength]);
  }
}
