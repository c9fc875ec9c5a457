# Byte-stream test helpers of parsec-interface-rs, modelled in Dafny

The test support in `src/requests/utils.rs` is used to unit-test the wire
format parsers of the Parsec interface. It has three parts:

- `MockReadWrite`, a `Read + Write` implementation that keeps a `Vec<u8>`
  queue: `write` pushes every byte on the back, `read` fills the caller's
  buffer by removing bytes from the front one at a time (panicking through
  `remove(0)` when the queue runs dry), `flush` does nothing;
- `MockFailReadWrite`, a unit struct whose `read`, `write` and `flush` all
  return `Err(ErrorKind::Other)`;
- the `get_from_stream!` macro, which reads `size_of::<T>()` bytes with
  `read_exact` and decodes them with `T::from_le_bytes` (typed arm), or
  reads `size` bytes into a `Vec<u8>` and returns it (sized arm), passing
  read errors on with `?`.

The model is functional. A mock is a value, and each `&mut self` method is a
function from the old mock to the new one together with the returned
`Result`. Bytes are the subset type `Byte` of `int` (0 to 255).

- `io.dfy` (`Io`): `Byte`, `ErrorKind`, `IoResult` and `Option`.
- `mock_streams.dfy` (`MockStreams`): the two mocks and their six methods, and
  the round-trip and splitting laws of the byte queue.
- `call_sequences.dfy` (`CallSequences`): whole sequences of calls on one
  byte queue. It proves the FIFO invariant, gives the exact condition under
  which no read panics, and shows that `flush` cannot be observed.
- `little_endian.dfy` (`LittleEndian`): `from_le_bytes` for `u8` to `u128` and
  `i8` to `i128`. Each is checked against a weighted-sum definition and has
  a round trip through its inverse, `to_le_bytes`.
- `get_from_stream.dfy` (`GetFromStream`): `read_exact` on either mock and
  the two arms of the macro.

An over-long read could have been made to fail with an end-of-stream
error, but the code panics in `Vec::remove(0)` instead, and the model
follows the code. Such a read is a precondition of `MockRead` and of the
macro (`CanRead`), and `Replay` returns `None` for a call sequence that would
reach that panic.

`read_exact` is not defined in this file; it is the standard library's
default method of `Read`. The model follows that default: an empty buffer
succeeds without calling `read`. A non-empty buffer is settled by one call,
because the byte queue always fills the whole buffer, and the failing
mock's `Other` error is not `Interrupted`, so it is returned. As a
consequence, `get_from_stream!(stream; 0)` succeeds even on
`MockFailReadWrite` (`FailingStreamPropagates`).

## Model

| member | source | states |
|---|---|---|
| MockStreams.TakeFront | src/requests/utils.rs:37-39 | The read loop leaves the first `i` slots of the buffer as they were, fills the remaining slots with the first bytes of the queue in order, and leaves exactly the rest of the queue; it needs as many queued bytes as slots to fill. |
| MockStreams.MockRead | src/requests/utils.rs:36-42 | With at least `buf.len()` bytes queued, `read` fills `buf` with the first `buf.len()` queued bytes in order, leaves the queue equal to the suffix after them (nothing lost: old queue = bytes read ++ new queue) and returns `Ok(buf.len())`. |
| MockStreams.PushBack | src/requests/utils.rs:47-49 | The write loop from position `i` appends `data[i..]` to the queue in order. |
| MockStreams.MockWrite | src/requests/utils.rs:46-51 | `write` leaves the earlier queue as a prefix, puts exactly `buf` after it, and returns `Ok(buf.len())`. |
| MockStreams.MockFlush | src/requests/utils.rs:53-55 | `flush` returns `Ok(())` and leaves the queue exactly as it was. |
| MockStreams.ReadNothing | src/requests/utils.rs:36-42 | Reading into an empty buffer leaves the queue unchanged and returns `Ok(0)`. |
| MockStreams.WriteThenReadBack | src/requests/utils.rs:36-51 | With `b` queued, writing `s` then reading `|b|` and `|s|` bytes yields `b`, then `s`, and empties the queue. |
| MockStreams.ReadSplit | src/requests/utils.rs:36-42 | Reading `n` then `k` bytes yields the same bytes and the same final queue as one read of `n + k` bytes split after `n`. |
| MockStreams.ReadWriteCommute | src/requests/utils.rs:36-51 | When the queue already holds the bytes a read asks for, a write before the read changes neither the bytes read nor the final queue. |
| MockStreams.FailingMockRefusesEverything | src/requests/utils.rs:61-75 | `MockFailReadWrite`'s `read` (`FailRead`), `write` (`FailWrite`) and `flush` (`FailFlush`) return `Err(Other)` for every mock and every buffer, empty ones included; the unit struct has no state that could change. |
| CallSequences.Step | src/requests/utils.rs:36-55 | One call on the byte queue panics exactly when it is a read asking for more bytes than are queued. Otherwise the old queue followed by the bytes written equals the bytes read followed by the new queue, and the call reads exactly the bytes it asks for. |
| CallSequences.Fifo | src/requests/utils.rs:31-56 | After any call sequence that does not panic, the bytes queued at the start followed by all bytes written equal all bytes read followed by the bytes still queued. |
| CallSequences.ReplayAccounting | src/requests/utils.rs:36-51 | A call sequence reads exactly the number of bytes it requests. The final queue length is the starting length plus the bytes written minus the bytes read. |
| CallSequences.ReplaySucceedsIff | src/requests/utils.rs:36-42 | A call sequence runs without panicking if and only if, at every read, the bytes requested so far are no more than the bytes queued at the start plus the bytes written so far. |
| CallSequences.WithoutFlushes | src/requests/utils.rs:53-55 | Dropping the flushes from a call sequence leaves no flush, keeps every byte written and every byte requested, and never lengthens the sequence. |
| CallSequences.FlushIsUnobservable | src/requests/utils.rs:53-55 | Removing every `flush` from a call sequence changes neither whether it panics, nor the bytes read, nor the final queue. |
| LittleEndian.FromLeBytes | src/requests/utils.rs:11 | Unsigned `from_le_bytes` of `n` bytes is below `256^n`. |
| LittleEndian.FromLeBytesIsWeightedSum | src/requests/utils.rs:11 | Unsigned `from_le_bytes` equals the sum over `i` of `bytes[i] * 256^i`. |
| LittleEndian.DecodeEncodeUnsigned | src/requests/utils.rs:11 | Every `v < 256^w` encoded on `w` little-endian bytes decodes back to `v`. |
| LittleEndian.EncodeDecodeUnsigned | src/requests/utils.rs:11 | Every byte sequence is the `w`-byte little-endian encoding of its decoded value. |
| LittleEndian.FromLeBytesSigned | src/requests/utils.rs:11 | Signed `from_le_bytes` of `n` bytes lies in `-2^(8n-1) .. 2^(8n-1)-1` and is the unsigned value, or the unsigned value minus `256^n`. |
| LittleEndian.SignFollowsTopBit | src/requests/utils.rs:11 | A signed decoded value is negative if and only if the last (most significant) byte is at least 128. |
| LittleEndian.DecodeEncodeSigned | src/requests/utils.rs:11 | Every in-range signed value survives two's complement encoding and decoding. |
| LittleEndian.EncodeDecodeSigned | src/requests/utils.rs:11 | Every non-empty byte sequence survives signed decoding and re-encoding. |
| LittleEndian.Decode | src/requests/utils.rs:9-11 | `T::from_le_bytes` of `size_of::<T>()` bytes is a value of `T`, and it is negative exactly when `T` is signed and the top byte's high bit is set. |
| LittleEndian.DecodeEncode | src/requests/utils.rs:9-11 | For every integer type, every value of the type survives `to_le_bytes` then `from_le_bytes`. |
| LittleEndian.EncodeDecode | src/requests/utils.rs:9-11 | For every integer type, every array of `size_of::<T>()` bytes survives `from_le_bytes` then `to_le_bytes`. |
| LittleEndian.DecodeExamples | src/requests/utils.rs:11 | `u32` from `[1,0,0,0]` is 1, `i32` from `[0xff; 4]` is -1, and `u16` from `[0x34,0x12]` is `0x1234`. |
| GetFromStream.ReadExact | src/requests/utils.rs:10 | `read_exact` succeeds exactly when the buffer is empty or the stream is the byte queue. On the queue it fills the buffer with the queue's first bytes and drops them from the queue. On the failing mock it returns `Err(Other)` and changes nothing. |
| GetFromStream.GetValue | src/requests/utils.rs:6-14 | The typed arm succeeds exactly on the byte queue. It consumes exactly `size_of::<T>()` bytes and yields their little-endian value, which is a value of `T`. On the failing mock it yields `Err(Other)` and no value. |
| GetFromStream.GetBytes | src/requests/utils.rs:15-23 | The sized arm succeeds exactly when `size` is 0 or the stream is the byte queue. It consumes exactly `size` bytes and returns them unchanged, in stream order. Size 0 returns an empty vector and leaves the stream alone. Any error is `Err(Other)` with the stream unchanged. |
| GetFromStream.ValueRoundTrip | src/requests/utils.rs:6-14 | A value queued in its little-endian form, ahead of other bytes, is read back by the typed arm, and the other bytes stay queued. |
| GetFromStream.ValuesComeBackInOrder | src/requests/utils.rs:6-56 | Two values written to an empty byte queue, followed by further bytes, come back out of two typed reads in the order written, and the further bytes stay queued. |
| GetFromStream.BytesComeBackUnchanged | src/requests/utils.rs:15-56 | Bytes written to an empty byte queue come back unchanged from the sized arm, and the queue is left empty. |
| GetFromStream.FailingStreamPropagates | src/requests/utils.rs:5-24 | On `MockFailReadWrite`, the typed arm always fails with `Other`. The sized arm fails with `Other` for every positive size and returns an empty vector for size 0. |
| GetFromStream.ExampleU32One | src/requests/utils.rs:9-11 | `get_from_stream!(stream, u32)` on the queued bytes `[1, 0, 0, 0]` yields 1 and empties the queue. |

## Left out

- The `std::io::Read` and `Write` traits are left out as interfaces. The macro's stream is one of the two mocks, not an arbitrary reader.
- The retry loop of `read_exact` is left out: short reads, `Interrupted` retries and `UnexpectedEof`. With these two mocks the loop never makes more than one `read` call.
- `std::io::Error` internals are left out; one `ErrorKind`, `Other`, is all the mocks produce.
- The macro mechanics are left out: hygiene, the `match &mut $stream` binding, and deriving the width from `size_of::<$type>()`. An explicit `IntType` argument takes their place.
- `usize`/`isize` are left out, because their width depends on the platform.
- The floating-point `from_le_bytes` of `f32`/`f64` is left out.
- MockStreams.MockRead: the `remove(0)` panic on an over-long read is a precondition (and `None` in `CallSequences.Replay`), not a modelled crash. The same panic is the `CanRead` precondition of GetFromStream.ReadExact, GetFromStream.GetValue and GetFromStream.GetBytes.
- GetFromStream.ReadExact: an over-long read of the byte queue panics in `Vec::remove(0)`; this member requires `CanRead` rather than modelling the crash.
- GetFromStream.GetValue: an over-long read of the byte queue panics in `Vec::remove(0)`; this member requires `CanRead` rather than modelling the crash.
- GetFromStream.GetBytes: an over-long read of the byte queue panics in `Vec::remove(0)`; this member requires `CanRead` rather than modelling the crash.
- The quadratic cost of `Vec::remove(0)` is left out; only the contents of the queue are modelled.
- `#[derive(Debug, Copy, Clone)]` and the `#[cfg(test)]` gating are left out; they add no behaviour.
