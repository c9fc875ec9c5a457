/**
 The two test doubles of `src/requests/utils.rs`: `MockReadWrite`, a byte
 queue that hands back what was written to it, and `MockFailReadWrite`, which
 refuses every call. Each Rust method that takes `&mut self` becomes a pure
 function from the old mock to the new one.
 */
module MockStreams {
  import opened Io

  /** `MockReadWrite { buffer: Vec<u8> }`: bytes waiting to be read, oldest first. */
  datatype MockReadWrite = MockReadWrite(buffer: seq<Byte>)

  /** `MockFailReadWrite`, a unit struct: it has no state to change. */
  datatype MockFailReadWrite = MockFailReadWrite

  /** What `read(&mut self, buf)` leaves behind: the mock, the caller's
      buffer after the call, and the returned `Result<usize>`. */
  datatype ReadOutcome = ReadOutcome(mock: MockReadWrite, buf: seq<Byte>, result: IoResult<nat>)

  /** What `write(&mut self, buf)` leaves behind. */
  datatype WriteOutcome = WriteOutcome(mock: MockReadWrite, result: IoResult<nat>)

  /** A zero-filled buffer of `n` bytes, like `[0_u8; n]` or `vec![0; n]`;
      a read overwrites its contents. */
  function Zeros(n: nat): (r: seq<Byte>)
    ensures |r| == n
  {
    seq(n, _ => 0)
  }

  /** The loop of `read` from position `i` on: each `buf[j]` in turn is
      overwritten with the byte that `remove(0)` takes off the front of
      `buffer`. Returns the filled buffer and what is left of the queue.
      `remove(0)` panics on an empty vector, hence the precondition. */
  function TakeFront(buf: seq<Byte>, i: nat, buffer: seq<Byte>): (r: (seq<Byte>, seq<Byte>))
    requires i <= |buf|
    requires |buf| - i <= |buffer|
    ensures |r.0| == |buf|
    ensures r.0[..i] == buf[..i]
    ensures r.0[i..] == buffer[..|buf| - i]
    ensures r.1 == buffer[|buf| - i..]
    decreases |buf| - i
  {
    if i == |buf| then (buf, buffer)
    else TakeFront(buf[i := buffer[0]], i + 1, buffer[1..])
  }

  /** `MockReadWrite::read`: fills all of `buf` from the front of the queue
      and reports `buf.len()` bytes read. Asking for more bytes than are
      queued panics in `Vec::remove`, so it is excluded here. */
  function MockRead(m: MockReadWrite, buf: seq<Byte>): (r: ReadOutcome)
    requires |buf| <= |m.buffer|
    ensures r.buf == m.buffer[..|buf|]
    ensures r.mock.buffer == m.buffer[|buf|..]
    ensures m.buffer == r.buf + r.mock.buffer
    ensures r.result == Ok(|buf|)
  {
    var (filled, rest) := TakeFront(buf, 0, m.buffer);
    ReadOutcome(MockReadWrite(rest), filled, Ok(|buf|))
  }

  /** The loop of `write` from position `i` on: each `data[j]` in turn is
      pushed onto the back of `buffer`. */
  function PushBack(buffer: seq<Byte>, data: seq<Byte>, i: nat): (r: seq<Byte>)
    requires i <= |data|
    ensures r == buffer + data[i..]
    decreases |data| - i
  {
    if i == |data| then buffer
    else
      assert buffer + data[i..] == (buffer + [data[i]]) + data[i + 1..];
      PushBack(buffer + [data[i]], data, i + 1)
  }

  /** `MockReadWrite::write`: appends every byte of `buf` behind the queued
      ones, in order, and reports all of them accepted. It never fails. */
  function MockWrite(m: MockReadWrite, buf: seq<Byte>): (r: WriteOutcome)
    ensures |r.mock.buffer| == |m.buffer| + |buf|
    ensures r.mock.buffer[..|m.buffer|] == m.buffer
    ensures r.mock.buffer[|m.buffer|..] == buf
    ensures r.result == Ok(|buf|)
  {
    WriteOutcome(MockReadWrite(PushBack(m.buffer, buf, 0)), Ok(|buf|))
  }

  /** `MockReadWrite::flush`: does nothing and succeeds. */
  function MockFlush(m: MockReadWrite): (r: (MockReadWrite, IoResult<()>))
    ensures r.0 == m
    ensures r.1 == Ok(())
  {
    (m, Ok(()))
  }

  /** `MockFailReadWrite::read`: refuses, leaving `buf` untouched. */
  function FailRead(f: MockFailReadWrite, buf: seq<Byte>): IoResult<nat>
  {
    Err(Other)
  }

  /** `MockFailReadWrite::write`: refuses. */
  function FailWrite(f: MockFailReadWrite, buf: seq<Byte>): IoResult<nat>
  {
    Err(Other)
  }

  /** `MockFailReadWrite::flush`: refuses. */
  function FailFlush(f: MockFailReadWrite): IoResult<()>
  {
    Err(Other)
  }

  /** Reading zero bytes: the loop body never runs, the queue is untouched
      and the call reports `Ok(0)`. */
  lemma ReadNothing(m: MockReadWrite)
    ensures MockRead(m, []) == ReadOutcome(m, [], Ok(0))
  {
  }

  /** Queue round trip: with `b` queued, writing `s` and then reading `|b|`
      and `|s|` bytes gives back `b`, then `s`, and empties the queue. */
  lemma WriteThenReadBack(b: seq<Byte>, s: seq<Byte>, buf1: seq<Byte>, buf2: seq<Byte>)
    requires |buf1| == |b| && |buf2| == |s|
    ensures var w := MockWrite(MockReadWrite(b), s).mock;
            var r1 := MockRead(w, buf1);
            var r2 := MockRead(r1.mock, buf2);
            r1.buf == b && r2.buf == s && r2.mock.buffer == []
  {
  }

  /** Reading `n` bytes and then `k` bytes is reading `n + k` bytes and
      splitting the result after the first `n`. */
  lemma ReadSplit(m: MockReadWrite, buf1: seq<Byte>, buf2: seq<Byte>)
    requires |buf1| + |buf2| <= |m.buffer|
    ensures var r1 := MockRead(m, buf1);
            var r2 := MockRead(r1.mock, buf2);
            var whole := MockRead(m, buf1 + buf2);
            r1.buf + r2.buf == whole.buf
            && r1.buf == whole.buf[..|buf1|]
            && r2.mock == whole.mock
  {
  }

  /** FIFO order: when the queue already holds the bytes a read asks for, a
      write in between does not change what is read, and reading before or
      after the write leaves the same queue. */
  lemma ReadWriteCommute(m: MockReadWrite, buf: seq<Byte>, data: seq<Byte>)
    requires |buf| <= |m.buffer|
    ensures var readFirst := MockRead(m, buf);
            var writeFirst := MockRead(MockWrite(m, data).mock, buf);
            readFirst.buf == writeFirst.buf
            && MockWrite(readFirst.mock, data).mock == writeFirst.mock
  {
  }

  /** Every call on the failing mock is refused with `ErrorKind::Other`,
      whatever the buffer, the empty one included. */
  lemma FailingMockRefusesEverything(f: MockFailReadWrite, buf: seq<Byte>)
    ensures FailRead(f, buf) == Err(Other)
    ensures FailWrite(f, buf) == Err(Other)
    ensures FailFlush(f) == Err(Other)
  {
  }
}
