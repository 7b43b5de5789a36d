# pyzmq monitor-event decoding, modelled in Dafny

libzmq can attach a monitor to any socket. The monitor reports lifecycle
events such as connect, disconnect and bind failure on a PAIR socket. Each
report is a two-frame multipart message:

- Frame 1 is six bytes. It holds a 16-bit event id followed by a 32-bit
  value, with no padding between them.
- Frame 2 is the endpoint the event is about, as raw bytes.

pyzmq's `zmq/utils/monitor.py` decodes these reports into a dictionary
with the keys `event`, `value` and `endpoint`. `recv_monitor_message`
first checks the libzmq version, then receives one message and decodes it.

This project models both steps as pure Dafny functions and proves that:

- the decoder accepts exactly the two-frame messages whose first frame is
  six bytes long;
- a rejection carries the message that was received;
- an accepted message yields two's-complement fields in the ranges of `h`
  and `i`, read from the stated byte offsets, plus the second frame
  unchanged;
- encoding and decoding are inverse to each other in both directions;
- the version gate rejects before anything is received;
- a successful receive consumes exactly one message.

The project has two modules:

- `bytes.dfy` (module `Bytes`) is the part of Python's `struct` that the
  format `=hi` uses. It covers unsigned fields of n bytes in either byte
  order and their two's-complement reading. Round trips are proved for
  both.
- `monitor.dfy` (module `Monitor`) holds `parse_monitor_message`, its
  inverse (the `=hi` packing libzmq performs), the version comparison and
  the synchronous receive over a queue of waiting messages.

Notes on the model:

- The `=` prefix of the format selects the host's byte order. The model
  therefore takes the byte order as a `ByteOrder` parameter instead of
  fixing one.
- The event id is **signed**, because the code unpacks it with `h`
  (zmq/utils/monitor.py:48). Some descriptions of this decoder call the
  event id an unsigned 16-bit integer. The model follows the code: bytes
  `FF FF` decode to event -1 (`Monitor.AllOnesDecodedAsMinusOne`).
- Bytes are integers 0..255 (`Bytes.Byte`). A frame is a sequence of
  bytes, and a multipart message is a sequence of frames.
- The `RuntimeError` of the source is `Monitor.MonitorError`. It carries
  the whole received message, because the error text embeds it.
- The version check `_check_version((4, 0), 'libzmq event API')` compares
  the running libzmq version with `(4, 0)` using Python's tuple order.
  zmq/error.py, which defines it, is not part of this model. The model
  writes that tuple order out as `Monitor.VersionBefore`, and the running
  version is a parameter.
- The socket is a value holding its waiting multipart messages, oldest
  first (`Monitor.MonitorSocket`). The receive returns the socket
  afterwards. An empty queue yields `Again`, the error pyzmq raises when
  no message can be received.

## Model

| member | source | states |
|---|---|---|
| Bytes.LittleEndianValue | zmq/utils/monitor.py:48 | the unsigned value of an n-byte field read least significant byte first is below 256^n |
| Bytes.LittleEndianValueOfBytes | zmq/utils/monitor.py:48 | writing any value below 256^n as n little-endian bytes and reading it back gives the value |
| Bytes.LittleEndianBytesOfValue | zmq/utils/monitor.py:48 | reading any byte string and writing its value back in as many bytes gives the same bytes |
| Bytes.Reverse | zmq/utils/monitor.py:48 | the big-endian layout is the little-endian one with byte i moved to position n-1-i |
| Bytes.UnsignedValueOfBytes | zmq/utils/monitor.py:48 | unsigned fields round-trip through their bytes in either byte order |
| Bytes.UnsignedBytesOfValue | zmq/utils/monitor.py:48 | bytes round-trip through their unsigned value in either byte order |
| Bytes.ToSigned | zmq/utils/monitor.py:48 | the two's-complement reading of an n-byte field lies in -2^(8n-1)..2^(8n-1)-1 and differs from the unsigned reading by 0 or 256^n |
| Bytes.FromSigned | zmq/utils/monitor.py:48 | the two's-complement store of an in-range signed value fits in n bytes and differs from the value by 0 or 256^n |
| Bytes.ToSignedFromSigned | zmq/utils/monitor.py:48 | every in-range signed value survives storing and reading |
| Bytes.FromSignedToSigned | zmq/utils/monitor.py:48 | every n-byte unsigned field survives reading as signed and storing again |
| Bytes.WidthsOfShortAndInt | zmq/utils/monitor.py:35-36 | the 16-bit and 32-bit fields span 2^16 and 2^32 values, with sign bounds 2^15 and 2^31 |
| Monitor.UnpackEventFrame | zmq/utils/monitor.py:48 | `=hi` unpacking of a 6-byte frame gives an event id in -32768..32767 and a value in -2^31..2^31-1 |
| Monitor.PackEventFrame | zmq/utils/monitor.py:33-37 | packing an in-range event id and value as `=hi` gives exactly six bytes, with no padding |
| Monitor.UnpackPackEventFrame | zmq/utils/monitor.py:33-37 | unpacking a packed frame gives back the packed event id and value, in either byte order |
| Monitor.PackUnpackEventFrame | zmq/utils/monitor.py:48 | every 6-byte frame is the packing of what it unpacks to, so the decoder ignores no byte |
| Monitor.ParseMonitorMessage | zmq/utils/monitor.py:20-54 | rejects if and only if the frame count is not 2 or the first frame is not 6 bytes long; a rejection carries the received message; an accepted message yields the signed reading of bytes 0..1 as the event and of bytes 2..5 as the value, both in range, and the second frame as the endpoint |
| Monitor.EncodeMonitorMessage | zmq/utils/monitor.py:33-39 | the message for an event is two frames, a 6-byte event frame and then the endpoint |
| Monitor.ParseEncodedMessage | zmq/utils/monitor.py:46-53 | round trip: any in-range event id and value with any endpoint, the empty one included, decode to exactly what was encoded |
| Monitor.EncodeParsedMessage | zmq/utils/monitor.py:46-53 | converse round trip: every accepted message is the encoding of its decoding, so distinct accepted messages decode to distinct events |
| Monitor.SingleFrameRejected | zmq/utils/monitor.py:46-47 | a one-frame message holding six bytes is rejected with an error that carries it |
| Monitor.ShortFirstFrameRejected | zmq/utils/monitor.py:46-47 | a first frame of three bytes is rejected whatever the endpoint, and the error carries the message |
| Monitor.ConnectedEventDecoded | zmq/utils/monitor.py:48-53 | little-endian bytes 01 00 2A 00 00 00 decode to event 1 and value 42, with the endpoint kept |
| Monitor.AllOnesDecodedAsMinusOne | zmq/utils/monitor.py:48 | the event id is signed: six bytes FF decode to event -1 and value -1 in either byte order |
| Monitor.MonitorApiNeedsMajorFour | zmq/utils/monitor.py:114 | a (major, minor, patch) version fails the `(4, 0)` gate exactly when major is below 4 |
| Monitor.RecvMonitorMessage | zmq/utils/monitor.py:114-118 | an old library fails with the version error and leaves the socket untouched; an empty queue fails with `Again` and leaves it untouched; otherwise exactly the first waiting message is consumed and the result is its decoding, with a malformed message also consumed |
| Monitor.RecvEncodedMessage | zmq/utils/monitor.py:114-118 | on a supported library, a socket whose next message encodes an event yields that event and keeps exactly the later messages |
| Monitor.RecvOnOldLibraryTakesNothing | zmq/utils/monitor.py:114-116 | on libzmq 3.x the receive fails with the version error for `(4, 0)` and "libzmq event API" before any message is taken |

## Left out

- `recv_monitor_message_async` and the asyncio dispatch in `recv_monitor_message` (zmq/utils/monitor.py:56-84, 110-112) are not modelled. They are about asyncio futures and a runtime type check on the socket's context.
- Monitor.RecvMonitorMessage: the `flags` argument is not modelled. It is passed unchanged to `recv_multipart`, which is a foreign call into libzmq.
- Monitor.RecvMonitorMessage: a blocking receive on an empty queue waits in the source. The model has no time, so it reports `Again` instead.
- Monitor.RecvMonitorMessage: other errors from the real receive, such as a closed socket, are not modelled.
- The running libzmq version is a parameter. Querying it is a foreign call.
- The host's byte order is a parameter, not a fact about the machine.
- The text of the `RuntimeError` is not modelled. Python renders the message with `%s`, and the model keeps only the message itself.
- `_MonitorMessage` is a TypedDict in the source (zmq/utils/monitor.py:14-17). The model uses a plain datatype instead.
- buildutils/msg.py is not modelled. It is a logging shim over Python's `logging` module that writes to stderr and calls `exit`.
