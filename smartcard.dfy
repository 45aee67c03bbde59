/**
 * What the bridge sees of the vendor reader library and of the React Native
 * promise it answers through.
 *
 * The vendor `Reader` cannot be seen, so each call into it is answered by an
 * oracle: the caller names the call it makes, and the oracle says what came
 * back (a length and the bytes written into the response buffer) or that it
 * threw. No ISO 7816 or CCID meaning is given to any of it.
 */
module SmartCard {
  import opened Hex

  datatype Option<T> = None | Some(value: T)

  /** The size of every response buffer the bridge allocates. */
  const RESPONSE_CAPACITY: nat := 300

  /** The names the bridge gives to card states, indexed by the vendor's state code. */
  const STATE_STRINGS: seq<string> :=
    ["Unknown", "Absent", "Present", "Swallowed", "Powered", "Negotiable", "Specific"]

  /** Why a promise was rejected. */
  datatype Reason =
    | Message(text: string)          // a fixed text, or `e.getMessage()` of a vendor exception
    | IndexOutOfRange(index: nat)    // `charAt` read past the end of the command text
    | NegativeLength(length: int)    // `Arrays.copyOfRange` refused a negative end
    | NullPointer                    // a missing reader or ATR was dereferenced

  /** One call of `resolve` or `reject` on a bridge promise. */
  datatype Settlement<T> = Resolved(value: T) | Rejected(code: string, reason: Reason)

  /** What a Java helper that may throw produced: a value, or the exception it threw. */
  datatype Outcome<T> = Ok(value: T) | Thrown(reason: Reason)

  /** `transmit` (an APDU for the card) or `control` with a vendor control code. */
  datatype Operation = TransmitApdu | Control(code: int)

  /** One call of `Reader.transmit` or `Reader.control`. */
  datatype Request = Request(op: Operation, slot: int, command: seq<byte>, commandLength: int, capacity: nat)

  /** What such a call did: returned a length after writing into the buffer, or threw. */
  datatype Reply = Returned(length: int, written: seq<byte>) | Threw(message: string)

  /** What `Reader.power` did: returned an ATR, returned `null`, or threw. */
  datatype PowerReply = Atr(atr: seq<byte>) | NoAtr | PowerThrew(message: string)

  /** The reader's answer to the n-th call (counting from 0) of one bridge operation. */
  type ReaderOracle = (nat, Request) -> Reply

  /**
   * A zero-filled buffer of `capacity` bytes after the reader wrote `written`
   * at its start; the reader cannot write past the end of the buffer.
   */
  function BufferAfter(capacity: nat, written: seq<byte>): (buffer: seq<byte>)
    ensures |buffer| == capacity
    ensures forall i :: 0 <= i < capacity ==> buffer[i] == if i < |written| then written[i] else 0
  {
    seq(capacity, i requires 0 <= i < capacity => if i < |written| then written[i] else 0)
  }

  /**
   * `Arrays.copyOfRange(a, 0, to)`: the first `to` bytes of `a`, padded with
   * zeros past its end; a negative `to` throws (here `None`).
   */
  function CopyPrefix(a: seq<byte>, to: int): (r: Option<seq<byte>>)
    ensures r.None? <==> to < 0
    ensures r.Some? ==> |r.value| == to
    ensures r.Some? ==> forall i :: 0 <= i < to ==> r.value[i] == if i < |a| then a[i] else 0
  {
    if to < 0 then None
    else Some(seq(to, i requires 0 <= i < to => if i < |a| then a[i] else 0))
  }

  /** Within the buffer, the copy is exactly the first `to` bytes. */
  lemma CopyPrefixWithin(a: seq<byte>, to: int)
    requires 0 <= to <= |a|
    ensures CopyPrefix(a, to) == Some(a[..to])
  {
    assert CopyPrefix(a, to).value == a[..to];
  }

  /**
   * The state-change listener's guard: a state code outside
   * `unknown..specific` (the vendor's `CARD_UNKNOWN` and `CARD_SPECIFIC`)
   * is replaced by `unknown`.
   */
  function ClampState(state: int, unknown: int, specific: int): (r: int)
    requires unknown <= specific
    ensures unknown <= r <= specific
    ensures r == state <==> unknown <= state <= specific
    ensures r != state ==> r == unknown
  {
    if state < unknown || state > specific then unknown else state
  }

  /** The vendor's state codes index `STATE_STRINGS`. */
  predicate StateCodesIndexLabels(unknown: int, specific: int) {
    0 <= unknown <= specific < |STATE_STRINGS|
  }

  /** The label the bridge reports for a state code. */
  function StateLabel(state: int, unknown: int, specific: int): (name: string)
    requires StateCodesIndexLabels(unknown, specific)
    ensures name in STATE_STRINGS
    ensures unknown <= state <= specific ==> name == STATE_STRINGS[state]
    ensures !(unknown <= state <= specific) ==> name == STATE_STRINGS[unknown]
  {
    STATE_STRINGS[ClampState(state, unknown, specific)]
  }
}
