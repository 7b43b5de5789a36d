/** Decoding of the event messages that libzmq publishes on a socket-monitor
    PAIR socket, and the synchronous receive that feeds the decoder. */
module Monitor {
  import opened Bytes

  /** One frame of a ZeroMQ multipart message. */
  type Frame = seq<Byte>

  /** A multipart message as a list of frames. */
  type Message = seq<Frame>

  /** The decoded event: the dictionary with keys `event`, `value` and
      `endpoint`. */
  datatype MonitorMessage = MonitorMessage(event: int, value: int, endpoint: Frame)

  /** The `RuntimeError` raised for a malformed event message; its text
      embeds the received message, so the error carries it. */
  datatype MonitorError = InvalidEventMessageFormat(msg: Message)

  datatype Result<T, E> = Success(value: T) | Failure(error: E)

  /** Sizes fixed by the `=hi` format: a 2-byte `h`, then a 4-byte `i`,
      with no padding in between. */
  const EventIdSize: nat := 2
  const EventValueSize: nat := 4
  const EventFrameSize: nat := EventIdSize + EventValueSize

  const ShortMin: int := -0x8000
  const ShortMax: int := 0x7FFF
  const IntMin: int := -0x8000_0000
  const IntMax: int := 0x7FFF_FFFF

  /** `struct.unpack("=hi", frame)`: a signed 16-bit event id from bytes 0..1
      and a signed 32-bit value from bytes 2..5, both in byte order `order`. */
  function UnpackEventFrame(frame: Frame, order: ByteOrder): (r: (int, int))
    requires |frame| == EventFrameSize
    ensures ShortMin <= r.0 <= ShortMax
    ensures IntMin <= r.1 <= IntMax
  {
    WidthsOfShortAndInt();
    (ToSigned(UnsignedValue(frame[..EventIdSize], order), EventIdSize),
     ToSigned(UnsignedValue(frame[EventIdSize..], order), EventValueSize))
  }

  /** `struct.pack("=hi", event, value)`: the first frame libzmq sends. */
  function PackEventFrame(event: int, value: int, order: ByteOrder): (frame: Frame)
    requires ShortMin <= event <= ShortMax
    requires IntMin <= value <= IntMax
    ensures |frame| == EventFrameSize
  {
    WidthsOfShortAndInt();
    UnsignedBytes(FromSigned(event, EventIdSize), EventIdSize, order)
      + UnsignedBytes(FromSigned(value, EventValueSize), EventValueSize, order)
  }

  /** Unpacking a packed frame gives back the packed event id and value. */
  lemma UnpackPackEventFrame(event: int, value: int, order: ByteOrder)
    requires ShortMin <= event <= ShortMax
    requires IntMin <= value <= IntMax
    ensures UnpackEventFrame(PackEventFrame(event, value, order), order) == (event, value)
  {
    WidthsOfShortAndInt();
    var e := FromSigned(event, EventIdSize);
    var v := FromSigned(value, EventValueSize);
    var frame := PackEventFrame(event, value, order);
    assert frame[..EventIdSize] == UnsignedBytes(e, EventIdSize, order);
    assert frame[EventIdSize..] == UnsignedBytes(v, EventValueSize, order);
    UnsignedValueOfBytes(e, EventIdSize, order);
    UnsignedValueOfBytes(v, EventValueSize, order);
    ToSignedFromSigned(event, EventIdSize);
    ToSignedFromSigned(value, EventValueSize);
  }

  /** Every 6-byte frame is the packing of what it unpacks to: the layout
      has no padding and no byte that the decoder ignores. */
  lemma PackUnpackEventFrame(frame: Frame, order: ByteOrder)
    requires |frame| == EventFrameSize
    ensures PackEventFrame(UnpackEventFrame(frame, order).0, UnpackEventFrame(frame, order).1, order) == frame
  {
    WidthsOfShortAndInt();
    var id := frame[..EventIdSize];
    var val := frame[EventIdSize..];
    UnsignedBytesOfValue(id, order);
    UnsignedBytesOfValue(val, order);
    FromSignedToSigned(UnsignedValue(id, order), EventIdSize);
    FromSignedToSigned(UnsignedValue(val, order), EventValueSize);
    assert id + val == frame;
  }

  /** `parse_monitor_message`: reject anything but two frames whose first
      is six bytes long, otherwise unpack the first frame as `=hi` and take
      the second frame as the endpoint. */
  function ParseMonitorMessage(msg: Message, order: ByteOrder): (r: Result<MonitorMessage, MonitorError>)
    ensures r.Failure? <==> |msg| != 2 || |msg[0]| != EventFrameSize
    ensures r.Failure? ==> r.error == InvalidEventMessageFormat(msg)
    ensures r.Success? ==>
      && ShortMin <= r.value.event <= ShortMax
      && IntMin <= r.value.value <= IntMax
      && r.value.event == ToSigned(UnsignedValue(msg[0][..EventIdSize], order), EventIdSize)
      && r.value.value == ToSigned(UnsignedValue(msg[0][EventIdSize..], order), EventValueSize)
      && r.value.endpoint == msg[1]
  {
    if |msg| != 2 || |msg[0]| != EventFrameSize then
      Failure(InvalidEventMessageFormat(msg))
    else
      var (event, value) := UnpackEventFrame(msg[0], order);
      Success(MonitorMessage(event, value, msg[1]))
  }

  /** The event message libzmq would send for a decoded event. */
  function EncodeMonitorMessage(m: MonitorMessage, order: ByteOrder): (msg: Message)
    requires ShortMin <= m.event <= ShortMax
    requires IntMin <= m.value <= IntMax
    ensures |msg| == 2 && |msg[0]| == EventFrameSize && msg[1] == m.endpoint
  {
    [PackEventFrame(m.event, m.value, order), m.endpoint]
  }

  /** Round trip: any in-range event id and value, with any endpoint
      (the empty one included), decode to exactly what was encoded. */
  lemma ParseEncodedMessage(m: MonitorMessage, order: ByteOrder)
    requires ShortMin <= m.event <= ShortMax
    requires IntMin <= m.value <= IntMax
    ensures ParseMonitorMessage(EncodeMonitorMessage(m, order), order) == Success(m)
  {
    UnpackPackEventFrame(m.event, m.value, order);
  }

  /** The converse round trip: a message the decoder accepts is exactly the
      encoding of the event it decodes to, so two different accepted
      messages never decode to the same event. */
  lemma EncodeParsedMessage(msg: Message, order: ByteOrder)
    requires ParseMonitorMessage(msg, order).Success?
    ensures EncodeMonitorMessage(ParseMonitorMessage(msg, order).value, order) == msg
  {
    PackUnpackEventFrame(msg[0], order);
  }

  /** A single frame is rejected, and the error carries the message. */
  lemma SingleFrameRejected(order: ByteOrder)
    ensures ParseMonitorMessage([[1, 2, 3, 4, 5, 6]], order)
      == Failure(InvalidEventMessageFormat([[1, 2, 3, 4, 5, 6]]))
  {
  }

  /** A first frame of three bytes is rejected, whatever the endpoint. */
  lemma ShortFirstFrameRejected(endpoint: Frame, order: ByteOrder)
    ensures ParseMonitorMessage([[1, 2, 3], endpoint], order)
      == Failure(InvalidEventMessageFormat([[1, 2, 3], endpoint]))
  {
  }

  /** Little-endian bytes 01 00 2A 00 00 00 are event 1 with value 42. */
  lemma ConnectedEventDecoded(endpoint: Frame)
    ensures ParseMonitorMessage([[0x01, 0x00, 0x2A, 0x00, 0x00, 0x00], endpoint], LittleEndian)
      == Success(MonitorMessage(1, 42, endpoint))
  {
    var m := MonitorMessage(1, 42, endpoint);
    ParseEncodedMessage(m, LittleEndian);
    assert EncodeMonitorMessage(m, LittleEndian)[0] == [0x01, 0x00, 0x2A, 0x00, 0x00, 0x00];
  }

  /** The event id is signed: all-ones bytes decode to -1 for both fields,
      in either byte order. */
  lemma AllOnesDecodedAsMinusOne(endpoint: Frame, order: ByteOrder)
    ensures ParseMonitorMessage([[0xFF, 0xFF, 0xFF, 0xFF, 0xFF, 0xFF], endpoint], order)
      == Success(MonitorMessage(-1, -1, endpoint))
  {
    WidthsOfShortAndInt();
    var id: seq<Byte> := [0xFF, 0xFF];
    var val: seq<Byte> := [0xFF, 0xFF, 0xFF, 0xFF];
    assert Reverse(id) == id && Reverse(val) == val;
    assert LittleEndianValue(val[3..]) == 0xFF;
    assert LittleEndianValue(val[2..]) == 0xFFFF;
    assert UnsignedValue(id, order) == 0xFFFF;
    assert UnsignedValue(val, order) == 0xFFFF_FFFF;
    assert [0xFF, 0xFF, 0xFF, 0xFF, 0xFF, 0xFF][..EventIdSize] == id;
    assert [0xFF, 0xFF, 0xFF, 0xFF, 0xFF, 0xFF][EventIdSize..] == val;
  }

  /** A libzmq version as Python compares it: a tuple of numbers such as
      (4, 3, 2). */
  type Version = seq<nat>

  /** The oldest libzmq with the 4.0-style monitor event API. */
  const MonitorApiVersion: Version := [4, 0]
  const MonitorApiFeature: string := "libzmq event API"

  /** Python's `<` on tuples: lexicographic, and a proper prefix comes
      first. */
  predicate VersionBefore(v: Version, min: Version)
  {
    if min == [] then false
    else if v == [] then true
    else v[0] < min[0] || (v[0] == min[0] && VersionBefore(v[1..], min[1..]))
  }

  /** A full (major, minor, patch) version lacks the monitor event API
      exactly when its major number is below 4. */
  lemma MonitorApiNeedsMajorFour(major: nat, minor: nat, patch: nat)
    ensures VersionBefore([major, minor, patch], MonitorApiVersion) <==> major < 4
  {
    assert [major, minor, patch][1..] == [minor, patch];
    assert [minor, patch][1..] == [patch];
    assert !VersionBefore([patch], []);
    assert !VersionBefore([minor, patch], [0]);
  }

  /** What a receive can fail with: the version gate, the receive itself
      (`zmq.Again` when no message is waiting), or the decoder. */
  datatype RecvError =
    | VersionError(minVersion: Version, feature: string)
    | Again
    | Malformed(cause: MonitorError)

  /** A monitor PAIR socket, seen through the one thing the receive uses:
      the multipart messages waiting to be received, oldest first. */
  datatype MonitorSocket = MonitorSocket(pending: seq<Message>)

  /** The synchronous `recv_monitor_message`: check the library version,
      then take one multipart message off the socket, then decode it.
      Returns the outcome and the socket afterwards. */
  function RecvMonitorMessage(version: Version, socket: MonitorSocket, order: ByteOrder)
    : (r: (Result<MonitorMessage, RecvError>, MonitorSocket))
    ensures VersionBefore(version, MonitorApiVersion) ==>
      r == (Failure(VersionError(MonitorApiVersion, MonitorApiFeature)), socket)
    ensures !VersionBefore(version, MonitorApiVersion) && socket.pending == [] ==>
      r == (Failure(Again), socket)
    ensures !VersionBefore(version, MonitorApiVersion) && socket.pending != [] ==>
      && r.1.pending == socket.pending[1..]
      && (r.0.Failure? <==> ParseMonitorMessage(socket.pending[0], order).Failure?)
      && (r.0.Success? ==> ParseMonitorMessage(socket.pending[0], order) == Success(r.0.value))
      && (r.0.Failure? ==> r.0.error == Malformed(InvalidEventMessageFormat(socket.pending[0])))
  {
    if VersionBefore(version, MonitorApiVersion) then
      (Failure(VersionError(MonitorApiVersion, MonitorApiFeature)), socket)
    else if socket.pending == [] then
      (Failure(Again), socket)
    else
      var msg := socket.pending[0];
      var rest := MonitorSocket(socket.pending[1..]);
      match ParseMonitorMessage(msg, order)
      case Success(m) => (Success(m), rest)
      case Failure(e) => (Failure(Malformed(e)), rest)
  }

  /** A socket whose next message is the encoding of `m` yields `m` on a
      supported library, and is left holding the messages after it. */
  lemma RecvEncodedMessage(version: Version, m: MonitorMessage, later: seq<Message>, order: ByteOrder)
    requires !VersionBefore(version, MonitorApiVersion)
    requires ShortMin <= m.event <= ShortMax
    requires IntMin <= m.value <= IntMax
    ensures RecvMonitorMessage(version, MonitorSocket([EncodeMonitorMessage(m, order)] + later), order)
      == (Success(m), MonitorSocket(later))
  {
    ParseEncodedMessage(m, order);
    assert ([EncodeMonitorMessage(m, order)] + later)[1..] == later;
  }

  /** On libzmq 3.2 the receive fails with the version error and leaves
      every waiting message in place. */
  lemma RecvOnOldLibraryTakesNothing(minor: nat, patch: nat, socket: MonitorSocket, order: ByteOrder)
    ensures RecvMonitorMessage([3, minor, patch], socket, order)
      == (Failure(VersionError([4, 0], "libzmq event API")), socket)
  {
    MonitorApiNeedsMajorFour(3, minor, patch);
  }
}
