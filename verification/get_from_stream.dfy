/**
 The `get_from_stream!` macro: read a fixed number of bytes from a stream
 with `read_exact` and either decode them as a little-endian integer (the
 typed arm) or hand them back as they are (the sized arm). A failed read is
 returned to the caller by `?`, and no value is produced.
 */
module GetFromStream {
  import opened Io
  import opened MockStreams
  import opened LittleEndian

  /** The stream a use of the macro reads from: one of the two mocks. */
  datatype Stream = Buffered(mock: MockReadWrite) | Failing(fail: MockFailReadWrite)

  /** `read_exact` of `n` bytes can be asked of `s` without panicking: the
      byte queue must hold at least `n` bytes, since the mock's `read` pops
      one byte per slot of the buffer. */
  predicate CanRead(s: Stream, n: nat)
  {
    s.Buffered? ==> n <= |s.mock.buffer|
  }

  /** The stream after a read, the caller's buffer, and the result. */
  datatype ExactOutcome = ExactOutcome(stream: Stream, buf: seq<Byte>, result: IoResult<()>)

  /** The stream after a use of the macro, and what the use evaluates to
      (an `Err` is what `?` returns from the enclosing function). */
  datatype Fetched<+T> = Fetched(stream: Stream, value: IoResult<T>)

  /** `Read::read_exact` as the standard library provides it: a loop that
      calls `read` until the buffer is full. An empty buffer needs no call at
      all and succeeds. Otherwise one call settles it: the byte queue fills
      the whole buffer and returns its length, while the failing mock returns
      `ErrorKind::Other`, which is not `Interrupted` and so ends the loop
      with that error. */
  function ReadExact(s: Stream, buf: seq<Byte>): (r: ExactOutcome)
    requires CanRead(s, |buf|)
    ensures |r.buf| == |buf|
    ensures r.result.Ok? <==> |buf| == 0 || s.Buffered?
    ensures r.result.Err? ==> r == ExactOutcome(s, buf, Err(Other))
    ensures s.Buffered? ==> r.buf == s.mock.buffer[..|buf|]
                            && r.stream == Buffered(MockReadWrite(s.mock.buffer[|buf|..]))
    ensures |buf| == 0 ==> r.stream == s
  {
    if |buf| == 0 then ExactOutcome(s, buf, Ok(()))
    else match s
      case Buffered(m) =>
        var o := MockRead(m, buf);
        ExactOutcome(Buffered(o.mock), o.buf, Ok(()))
      case Failing(f) =>
        ExactOutcome(s, buf, Err(FailRead(f, buf).error))
  }

  /** The typed arm, `get_from_stream!(stream, T)`: reads `size_of::<T>()`
      bytes and decodes them with `T::from_le_bytes`. */
  function GetValue(s: Stream, t: IntType): (r: Fetched<int>)
    requires CanRead(s, t.Size())
    ensures r.value.Ok? <==> s.Buffered?
    ensures s.Buffered? ==>
              r.value == Ok(Decode(t, s.mock.buffer[..t.Size()]))
              && r.stream == Buffered(MockReadWrite(s.mock.buffer[t.Size()..]))
    ensures s.Failing? ==> r == Fetched(s, Err(Other))
    ensures r.value.Ok? ==> t.Holds(r.value.value)
  {
    var o := ReadExact(s, Zeros(t.Size()));
    match o.result
    case Err(e) => Fetched(o.stream, Err(e))
    case Ok(_) => Fetched(o.stream, Ok(Decode(t, o.buf)))
  }

  /** The sized arm, `get_from_stream!(stream; size)`: reads `size` bytes
      into a fresh `vec![0; size]` and returns the vector. */
  function GetBytes(s: Stream, size: nat): (r: Fetched<seq<Byte>>)
    requires CanRead(s, size)
    ensures r.value.Ok? <==> size == 0 || s.Buffered?
    ensures r.value.Ok? ==> |r.value.value| == size
    ensures s.Buffered? ==>
              r.value == Ok(s.mock.buffer[..size])
              && r.stream == Buffered(MockReadWrite(s.mock.buffer[size..]))
    ensures size == 0 ==> r == Fetched(s, Ok([]))
    ensures r.value.Err? ==> r == Fetched(s, Err(Other))
  {
    var o := ReadExact(s, Zeros(size));
    match o.result
    case Err(e) => Fetched(o.stream, Err(e))
    case Ok(_) => Fetched(o.stream, Ok(o.buf))
  }

  /** A value queued in its little-endian form, ahead of any other bytes,
      is what the typed arm reads next; the other bytes stay queued. */
  lemma ValueRoundTrip(t: IntType, v: int, rest: seq<Byte>)
    requires t.Holds(v)
    ensures GetValue(Buffered(MockReadWrite(Encode(t, v) + rest)), t)
            == Fetched(Buffered(MockReadWrite(rest)), Ok(v))
  {
    var e := Encode(t, v);
    assert (e + rest)[..t.Size()] == e;
    assert (e + rest)[t.Size()..] == rest;
    DecodeEncode(t, v);
  }

  /** Values written to the byte queue in their little-endian form come back
      out of the typed arm in the order they were written, and whatever
      was written after them stays queued. */
  lemma ValuesComeBackInOrder(t1: IntType, v1: int, t2: IntType, v2: int, rest: seq<Byte>)
    requires t1.Holds(v1) && t2.Holds(v2)
    ensures var empty := MockReadWrite([]);
            var queue := MockWrite(MockWrite(MockWrite(empty, Encode(t1, v1)).mock, Encode(t2, v2)).mock, rest).mock;
            GetValue(Buffered(queue), t1) == Fetched(Buffered(MockReadWrite(Encode(t2, v2) + rest)), Ok(v1))
    ensures GetValue(Buffered(MockReadWrite(Encode(t2, v2) + rest)), t2) == Fetched(Buffered(MockReadWrite(rest)), Ok(v2))
  {
    var e1 := Encode(t1, v1);
    var e2 := Encode(t2, v2);
    var q1 := MockWrite(MockReadWrite([]), e1).mock;
    assert q1.buffer == e1;
    var q2 := MockWrite(q1, e2).mock;
    assert q2.buffer == e1 + e2;
    var queue := MockWrite(q2, rest).mock;
    assert queue.buffer == e1 + (e2 + rest);
    ValueRoundTrip(t1, v1, e2 + rest);
    ValueRoundTrip(t2, v2, rest);
  }

  /** Bytes written to the byte queue come back unchanged out of the sized
      arm, and the queue is left empty. */
  lemma BytesComeBackUnchanged(data: seq<Byte>)
    ensures var m := MockWrite(MockReadWrite([]), data).mock;
            GetBytes(Buffered(m), |data|) == Fetched(Buffered(MockReadWrite([])), Ok(data))
  {
    var m := MockWrite(MockReadWrite([]), data).mock;
    assert m.buffer == data;
    assert data[..|data|] == data;
    assert data[|data|..] == [];
  }

  /** On the failing mock, the typed arm always fails with `Other`; the sized
      arm fails for every positive size but yields an empty vector for size
      zero, since `read_exact` never calls `read` for an empty buffer. */
  lemma FailingStreamPropagates(f: MockFailReadWrite, t: IntType, size: nat)
    ensures GetValue(Failing(f), t) == Fetched(Failing(f), Err(Other))
    ensures GetBytes(Failing(f), size).value ==
              if size == 0 then Ok([]) else Err(Other)
  {
  }

  /** `get_from_stream!(stream, u32)` on the queued bytes `[1, 0, 0, 0]`
      yields 1 and consumes all four bytes. */
  lemma ExampleU32One()
    ensures GetValue(Buffered(MockReadWrite([1, 0, 0, 0])), U32)
            == Fetched(Buffered(MockReadWrite([])), Ok(1))
  {
    var q: seq<Byte> := [1, 0, 0, 0];
    assert q[..4] == q && q[4..] == [];
    DecodeExamples();
    assert GetValue(Buffered(MockReadWrite(q)), U32).value == Ok(1);
  }
}
