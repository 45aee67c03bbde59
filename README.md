# react-native-acs: verified model of the hex codecs, the batch transmit loop and the bridge logic

react-native-acs connects a React Native app to an ACS smart-card reader over
USB on Android. Most of it is glue between the vendor SDK
(`com.acs.smartcard.Reader`), Android's USB services and the React Native
bridge. Inside that glue sit small, deterministic pieces. This project models
them in Dafny and proves what they compute.

- **`AcsModuleTemp.java`** (module `AcsModuleTemp`). It holds:
  - the permissive hex decoder `toByteArray`, which skips non-hex characters and keeps an odd trailing digit as a high half;
  - the encoders `toHexString(int)` and `toHexString(byte[])`;
  - `logBuffer`'s sixteen-bytes-per-line grouping;
  - the `TransmitTask` loop, which splits a command text at line feeds and makes one reader call per piece;
  - the state-code clamping of its state-change listener.
- **`ReaderModule.java`** (module `ReaderNative`, class `ReaderModule`). It holds:
  - the strict codecs `bytesToHexString` and `hexStringToBytes`;
  - `Transmit`, which decodes, makes one `transmit` call into a 300-byte buffer, truncates and encodes;
  - `ConnectToCard`;
  - the state listener;
  - the `Init` / `usbReceiver` / `setDevice` result codes (E100, E101, E102, R001);
  - the "only when opened" guards of `GetReaderInfo` (E004) and `CloseReader`.
- **`src/index.tsx`** (module `ReaderJs`). It holds the TypeScript codecs `hexStringToHex` and `hexToHexString`, and their composition around the native calls in `Reader.Transmit` and `Reader.ConnectToCard`.

Supporting modules:
- `Hex` gives the library routines by their effect on the bridge's inputs: `Character.digit`, `Integer.toHexString` / `toString(16)`, `toUpperCase` and `parseInt(_, 16)`.
- `Strings` gives `indexOf`, `substr`, `padStart`, `join('')`, and the split-at-every-line-feed that the transmit loop performs.
- `SmartCard` holds the promise outcomes (`Settlement`), exceptions (`Reason`), the vendor reader seen as an oracle, and `Arrays.copyOfRange`.

A Java `byte` is modelled as its unsigned value (`b & 0xFF`), the only way the bridge reads a byte back. A `(byte)` cast is a reduction modulo 256.

The vendor reader is an oracle function, `ReaderOracle = (nat, Request) -> Reply`. Given the index of the call and the request, it returns either a response length with the bytes written, or an exception message. `power` is a `PowerReply` parameter.

A promise is modelled by the value it is settled with. For `Init`, every `resolve`/`reject` call on the stored promise is recorded in the sequence `initSettlements`.

`toByteArray` is modelled as its code behaves. With an odd number of hex digits, the last byte holds the final digit in its high half and zero in its low half.

`CountHexDigits`, `WriteByte` and `TransmitCommand` are pieces of the source methods, pulled out as methods of their own. They are the counting loop of `toByteArray`, the per-byte text of `logBuffer` / `toHexString(byte[])`, and the body of the transmit loop.

## Model

| member | source | states |
|---|---|---|
| Hex.JavaDigit | android/src/main/java/com/reactnativeacs/ReaderModule.java:225-226 | `Character.digit(c, 16)` is -1 exactly for non-hex characters and otherwise the digit's value in 0..15 |
| Hex.RawHexValue | android/src/main/java/com/reactnativeacs/AcsModuleTemp.java:557 | `Integer.toHexString(n)` writes only hex digits, and reading them back gives n |
| Hex.RawHexLength | android/src/main/java/com/reactnativeacs/AcsModuleTemp.java:557 | a value below 16^k takes at most k digits (so an `int` takes at most 8) |
| Hex.RawHexOfByte | android/src/main/java/com/reactnativeacs/AcsModuleTemp.java:467-470 | a byte value below 16 takes one digit, and two digits (high half, then low half) from 16 on |
| Hex.LeadingZero | android/src/main/java/com/reactnativeacs/AcsModuleTemp.java:558-560 | prepending "0" does not change the number a digit string denotes |
| Hex.UpperCaseValue | android/src/main/java/com/reactnativeacs/AcsModuleTemp.java:562 | `toUpperCase` on hex digits yields upper-case digits with the same value |
| Strings.IndexOf | android/src/main/java/com/reactnativeacs/AcsModuleTemp.java:317 | `indexOf('\n', from)` is the first position at or after `from` holding a line feed, or -1 when there is none |
| Strings.Substr | src/index.tsx:24 | `substr(i, 2)` has two characters, or fewer at the end of the text |
| Strings.PadStart | src/index.tsx:32 | `padStart(2, '0')` leaves a text of length 2 alone and fills a shorter one with leading '0's up to length 2 |
| Strings.JoinSplit | android/src/main/java/com/reactnativeacs/AcsModuleTemp.java:314-366 | joining the pieces cut at every line feed with line feeds gives back the command text |
| Strings.SplitJoin | android/src/main/java/com/reactnativeacs/AcsModuleTemp.java:314-366 | pieces without line feeds, joined and cut again, come back unchanged (the cut is the inverse of the join) |
| SmartCard.BufferAfter | android/src/main/java/com/reactnativeacs/ReaderModule.java:109-114 | the fresh 300-byte buffer after the reader wrote into it: the written bytes first, then zeros |
| SmartCard.CopyPrefix | android/src/main/java/com/reactnativeacs/ReaderModule.java:115 | `Arrays.copyOfRange(a, 0, n)` throws exactly when n < 0; otherwise it has n bytes, those of `a`, then zeros past its end |
| SmartCard.CopyPrefixWithin | android/src/main/java/com/reactnativeacs/ReaderModule.java:115 | within the buffer, the copy is exactly its first n bytes |
| SmartCard.ClampState | android/src/main/java/com/reactnativeacs/ReaderModule.java:145-151 | the result is in `CARD_UNKNOWN..CARD_SPECIFIC`; it equals the state exactly when the state is in range, and is `CARD_UNKNOWN` otherwise |
| SmartCard.StateLabel | android/src/main/java/com/reactnativeacs/ReaderModule.java:145-155 | the label is an entry of `stateStrings`: the state's own entry in range, the `CARD_UNKNOWN` entry out of range |
| AcsModuleTemp.CountHexDigits | android/src/main/java/com/reactnativeacs/AcsModuleTemp.java:503-511 | the first loop counts exactly the hex digits of the text |
| AcsModuleTemp.ToByteArray | android/src/main/java/com/reactnativeacs/AcsModuleTemp.java:495-547 | the array filled in place equals the permissive decoding of the text (pairs of hex digits, non-digits skipped) |
| AcsModuleTemp.DecodeSkipsNonDigits | android/src/main/java/com/reactnativeacs/AcsModuleTemp.java:504-530 | decoding ignores every character that is not `0-9`, `A-F` or `a-f`: it equals decoding the text with those characters removed |
| AcsModuleTemp.DecodeDigits | android/src/main/java/com/reactnativeacs/AcsModuleTemp.java:513-539 | (count of hex digits + 1) / 2 bytes; byte k is 16·digit(2k) + digit(2k+1); with an odd count the last byte is 16·(last digit), so the dangling digit is kept in the high half |
| AcsModuleTemp.DecodeIgnoresCase | android/src/main/java/com/reactnativeacs/AcsModuleTemp.java:520-528 | upper- and lower-case digits decode alike: decoding the upper-cased text gives the same bytes |
| AcsModuleTemp.ToHexStringInt | android/src/main/java/com/reactnativeacs/AcsModuleTemp.java:555-563 | `toHexString(int)` is an even-length (2 to 8) string of upper-case hex digits denoting the int's unsigned 32-bit value, with no pair of leading zeros beyond two characters (a "0" is added only to an odd-length raw form) |
| AcsModuleTemp.JavaByteText | android/src/main/java/com/reactnativeacs/AcsModuleTemp.java:577-582 | `toHexString(b & 0xFF)`, padded with "0" when a single digit, upper-cased, plus a space: the two upper-case digits of the byte's halves, then ' ' |
| AcsModuleTemp.WriteByte | android/src/main/java/com/reactnativeacs/AcsModuleTemp.java:577-582 | the per-byte steps of the loop give the byte's two upper-case digits and a space |
| AcsModuleTemp.ToHexString | android/src/main/java/com/reactnativeacs/AcsModuleTemp.java:571-586 | `toHexString(byte[])` builds the byte texts one after another, in order |
| AcsModuleTemp.SpacedHexAt | android/src/main/java/com/reactnativeacs/AcsModuleTemp.java:571-586 | three characters per byte: the high digit, the low digit (upper case), then a space |
| AcsModuleTemp.SpacedHexConcat | android/src/main/java/com/reactnativeacs/AcsModuleTemp.java:571-586 | the text of two byte runs back to back is the two texts back to back |
| AcsModuleTemp.SpacedHexRoundTrip | android/src/main/java/com/reactnativeacs/AcsModuleTemp.java:495-586 | `toByteArray(toHexString(b)) == b` for every byte array b |
| AcsModuleTemp.LogBuffer | android/src/main/java/com/reactnativeacs/AcsModuleTemp.java:461-487 | the lines `logBuffer` emits are the first `bufferLength` bytes (none when negative) cut into runs of 16, each written as `toHexString(byte[])` writes it |
| AcsModuleTemp.LogLinesLast | android/src/main/java/com/reactnativeacs/AcsModuleTemp.java:465-486 | the last line holds the bytes after the last full group of 16, and the earlier lines hold the groups before it |
| AcsModuleTemp.LogLinesCover | android/src/main/java/com/reactnativeacs/AcsModuleTemp.java:465-486 | the lines glued together are the whole buffer's text, and each line holds 1 to 16 bytes (3 to 48 characters) |
| AcsModuleTemp.StateChangeLabels | android/src/main/java/com/reactnativeacs/AcsModuleTemp.java:412-423 | both `stateStrings` lookups stay in bounds; an in-range state gets its own label, and an out-of-range one the `CARD_UNKNOWN` label |
| AcsModuleTemp.TransmitCommand | android/src/main/java/com/reactnativeacs/AcsModuleTemp.java:329-364 | one piece makes one call: `transmit` when the control code is negative, `control` otherwise, with the command, its length and a 300-byte buffer; on failure the record has no command, length 0, no response, length 0 and the exception |
| AcsModuleTemp.TransmitBatch | android/src/main/java/com/reactnativeacs/AcsModuleTemp.java:303-369 | one request and one record per line-feed piece, in order; request k carries the decoding of piece k, and record k is what the reader's answer to it gives, whether earlier calls failed or not |
| AcsModuleTemp.BatchStep | android/src/main/java/com/reactnativeacs/AcsModuleTemp.java:317-327 | the piece taken between `startIndex` and the next line feed (or the end) is the next piece of the split, and the rest of the split is that of the text after the line feed |
| AcsModuleTemp.BatchPieces | android/src/main/java/com/reactnativeacs/AcsModuleTemp.java:314-366 | the loop sees (number of line feeds) + 1 pieces with no line feed inside; joined with line feeds they give the text; a trailing line feed yields a last, empty piece |
| ReaderNative.HexArrayDigit | android/src/main/java/com/reactnativeacs/ReaderModule.java:41 | `HEX_ARRAY[d]` is the upper-case digit of d |
| ReaderNative.HexEncode | android/src/main/java/com/reactnativeacs/ReaderModule.java:211-219 | 2·n characters, all upper-case hex digits |
| ReaderNative.HexEncodeAt | android/src/main/java/com/reactnativeacs/ReaderModule.java:211-219 | characters 2i and 2i+1 are the upper-case digits of the high and low halves of byte i, taken as 0..255 |
| ReaderNative.BytesToHexString | android/src/main/java/com/reactnativeacs/ReaderModule.java:211-219 | the filled character array is the hex text of the bytes |
| ReaderNative.StrictDecode | android/src/main/java/com/reactnativeacs/ReaderModule.java:221-229 | `hexStringToBytes` throws (index out of range at `len`) exactly when the length is odd, and otherwise returns len/2 bytes |
| ReaderNative.HexStringToBytes | android/src/main/java/com/reactnativeacs/ReaderModule.java:221-229 | the loop stepping by two returns or throws as the strict decoding says |
| ReaderNative.StrictDecodeDigits | android/src/main/java/com/reactnativeacs/ReaderModule.java:224-226 | on an even-length text of hex digits, byte k is 16·digit(2k) + digit(2k+1) |
| ReaderNative.StrictDecodeIgnoresCase | android/src/main/java/com/reactnativeacs/ReaderModule.java:225-226 | upper-casing the text changes neither the bytes nor the exception |
| ReaderNative.StrictRoundTrip | android/src/main/java/com/reactnativeacs/ReaderModule.java:211-229 | `hexStringToBytes(bytesToHexString(b)) == b` for every byte array b |
| ReaderNative.StrictEncodeOfDecode | android/src/main/java/com/reactnativeacs/ReaderModule.java:211-229 | encoding the bytes of an even-length hex text gives back the text, upper-cased |
| ReaderNative.StrictAgreesWithPermissive | android/src/main/java/com/reactnativeacs/ReaderModule.java:221-229 | on even-length texts of hex digits, `hexStringToBytes` and `AcsModuleTemp.toByteArray` return the same bytes |
| ReaderNative.StateChangeEvent | android/src/main/java/com/reactnativeacs/ReaderModule.java:142-160 | the event carries the slot and two labels from `stateStrings`: an in-range state's own label, or the `CARD_UNKNOWN` label for one out of range |
| ReaderNative.FirstSupported | android/src/main/java/com/reactnativeacs/ReaderModule.java:70-75 | the loop stops at the first supported device, and finds none only when no device is supported |
| ReaderNative.PermissionOutcome | android/src/main/java/com/reactnativeacs/ReaderModule.java:172-209 | resolved exactly when permission is granted, the device is present and supported, and `open` does not throw; otherwise E102 (denied), E101 (no device), E100 (unsupported) or R001 with `open`'s message |
| ReaderNative.ReaderModule.constructor | android/src/main/java/com/reactnativeacs/ReaderModule.java:46-54 | no reader, nothing open, no device, no receiver, no settlement yet |
| ReaderNative.ReaderModule.Init | android/src/main/java/com/reactnativeacs/ReaderModule.java:62-88 | a fresh, unopened reader; the first supported device is stored, and a device stored by an earlier `Init` stays when none is found; with no device stored (or no device list) the promise is rejected with E100; otherwise the receiver is registered and permission is asked for that device |
| ReaderNative.ReaderModule.SetDevice | android/src/main/java/com/reactnativeacs/ReaderModule.java:172-180 | `open` succeeding opens the reader and resolves the promise; `open` throwing rejects it with R001 and the exception's message |
| ReaderNative.ReaderModule.OnReceive | android/src/main/java/com/reactnativeacs/ReaderModule.java:182-209 | another action changes nothing; the permission action settles the promise with the permission outcome, and opens the reader exactly when that outcome resolves |
| ReaderNative.ReaderModule.GetReaderInfo | android/src/main/java/com/reactnativeacs/ReaderModule.java:122-133 | resolves with the reader's name and slot count exactly when the reader is opened, and otherwise rejects with E004 "No reader is opened" |
| ReaderNative.ReaderModule.CloseReader | android/src/main/java/com/reactnativeacs/ReaderModule.java:135-140 | `close` is called exactly when the reader was opened, and afterwards it is not opened |
| ReaderNative.ReaderModule.Transmit | android/src/main/java/com/reactnativeacs/ReaderModule.java:105-120 | an odd-length command rejects with R002 and never calls the reader; otherwise exactly one `transmit` of the decoded command into a 300-byte buffer; an exception or a negative length rejects with R002; otherwise it resolves with the hex of the first `responseLength` bytes of the buffer |
| ReaderNative.ReaderModule.ConnectToCard | android/src/main/java/com/reactnativeacs/ReaderModule.java:90-103 | resolves with the hex of the ATR when `power` returns one and `setProtocol` does not throw; a missing reader, a missing ATR or any exception rejects with R002 |
| ReaderNative.TransmitResponse | android/src/main/java/com/reactnativeacs/ReaderModule.java:109-115 | for a length within the buffer, the response is exactly the buffer's first `responseLength` bytes; its text has 2·`responseLength` characters and decodes back to them |
| ReaderJs.HexStringToHex | src/index.tsx:21-27 | the loop stepping by two pushes the value of each two-character chunk, in order |
| ReaderJs.JsDecodeValues | src/index.tsx:21-27 | ceil(len/2) numbers; number k is 16·digit(2k) + digit(2k+1), and for an odd length the last number is the value of the lone final digit |
| ReaderJs.ChunkText | src/index.tsx:32 | `toString(16).toUpperCase().padStart(2, '0')` of a value in 0..255 is the two upper-case digits of its halves |
| ReaderJs.HexToHexString | src/index.tsx:29-36 | `hexToHexString` writes the same text as the native `bytesToHexString`: two upper-case digits per value, 2·n characters |
| ReaderJs.JsRoundTrip | src/index.tsx:21-36 | `hexStringToHex(hexToHexString(b)) == b` for every list b of values in 0..255 (and equally for the native `bytesToHexString`) |
| ReaderJs.Transmit | src/index.tsx:72-78 | the native side decodes the request text to exactly the caller's bytes and transmits those; the numbers returned are exactly the first `responseLength` bytes of the response buffer; a native rejection passes through |
| ReaderJs.ConnectToCard | src/index.tsx:66-70 | the numbers returned are exactly the bytes of the ATR; a native rejection passes through |

## Left out

- Android USB plumbing (`UsbManager`, `PendingIntent`, `registerReceiver`, device enumeration) is operating-system I/O. The device list, the permission answer, the intent's device and whether `open` throws are parameters.
- The vendor SDK `com.acs.smartcard.Reader` is a foreign library. It is an oracle with no ISO 7816 or CCID meaning. `CARD_UNKNOWN` and `CARD_SPECIFIC` are parameters that must index `stateStrings`. `CARD_WARM_RESET` and `PROTOCOL_T0 | PROTOCOL_T1` are not modelled, since they only reach the oracle. The reader name and slot count come in as parameters.
- `mReader.isOpened()` is the field `isOpen`, which the model keeps itself. This assumes three things of the vendor library: a successful `open` makes the reader opened, an `open` that throws leaves it as it was, and `close` makes it not opened. The contracts of `SetDevice`, `OnReceive`, `GetReaderInfo` and `CloseReader` about being opened rest on these assumptions.
- Java and JavaScript strings are sequences of UTF-16 code units, while a Dafny `string` is a sequence of Unicode characters. For text outside the Basic Multilingual Plane the lengths differ, so the parity `hexStringToBytes` tests can differ too. Lone surrogates cannot be represented. This only matters for text that is not hex digits: every text the bridge itself builds or expects is ASCII.
- `AsyncTask` threading, `publishProgress` / `onProgressUpdate` delivery and the `synchronized` blocks are concurrency. The transmit loop is sequential and returns its progress records in order.
- Logging is left out because `logMsg` does nothing. This covers `Log.i`/`Log.d`, the string `onStateChange` builds in `AcsModuleTemp` and then discards, and the handlers that print progress. `logBuffer` is modelled as the list of lines it would log.
- The other `AcsModuleTemp` operations (its `Init`, the power, protocol and close tasks and its broadcast receiver) are USB and SDK plumbing outside the modelled core.
- React Native bridge objects (`Promise`, `WritableMap`, event emitters, the linking-error `Proxy`) become plain values. A settled promise is its `Settlement`. The `WritableMap` of `GetReaderInfo` is the `ReaderInfo` record. The state event is the `StateEvent` record.
- ReaderNative.ReaderModule.Init: `initSettlements` records every `resolve`/`reject` call on the stored promise. React Native's rule that only the first call counts is not modelled.
- `Reader.Init` in `src/index.tsx` only chains two native calls and is not modelled. The native side puts the slot count under the key "slotNum", while the TypeScript interface names it `numSlots`; that key is not modelled.
- Byte arrays are returned as sequences. Allocating a fresh array and aliasing are not modelled, except that `ToByteArray`, `BytesToHexString` and `HexStringToBytes` fill a local `array` in place.
- Hex.JavaDigit: covers ASCII only. The non-ASCII digits that `Character.digit` also accepts are not modelled.
- ReaderJs.HexStringToHex: requires a text of hex digits, since `parseInt` on other text (NaN, prefixes) is out of scope. Every text it receives from the native side is such a text.
- ReaderJs.HexToHexString: takes values in 0..255. Other numbers passed to `hexToHexString` are out of scope.
- AcsModuleTemp.ToHexStringInt: takes a 32-bit `int` value. The sign of a negative `int` is modelled as its unsigned 32-bit value.
- AcsModuleTemp.LogBuffer: requires `bufferLength <= buffer.length`. The `ArrayIndexOutOfBoundsException` a larger length would raise is not modelled. The Java `bufferString != ""` is a reference comparison. It is modelled as an emptiness test, which matches here because the only empty value the string ever holds is the literal itself.
- ReaderNative.ReaderModule.GetReaderInfo: requires `Init` to have created the reader. The `NullPointerException` a call before `Init` raises is not modelled.
- ReaderNative.ReaderModule.CloseReader: requires `Init` to have created the reader, for the same reason.
- ReaderNative.ReaderModule.OnReceive: requires the receiver to be registered, since the operating system delivers permission broadcasts only to a registered receiver.
