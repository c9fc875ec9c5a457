/**
 Sequences of calls on one `MockReadWrite`, as a test makes them. The queue
 discipline of the mock shows up here: whatever interleaving of writes,
 reads and flushes a test performs, the bytes read are the bytes written,
 in the order written.
 */
module CallSequences {
  import opened Io
  import opened MockStreams

  /** One call on the mock: `write(data)`, `read` into a buffer of `len`
      bytes, or `flush()`. */
  datatype Call = Write(data: seq<Byte>) | Read(len: nat) | Flush

  /** Bytes a single call writes. */
  function WrittenBy(c: Call): seq<Byte>
  {
    if c.Write? then c.data else []
  }

  /** Bytes a single call asks to read. */
  function RequestedBy(c: Call): nat
  {
    if c.Read? then c.len else 0
  }

  /** Performs one call: the mock afterwards and the bytes read, or `None`
      for a read that asks for more bytes than are queued. */
  function Step(m: MockReadWrite, c: Call): (r: Option<(MockReadWrite, seq<Byte>)>)
    ensures r.Some? <==> RequestedBy(c) <= |m.buffer|
    ensures r.Some? ==> m.buffer + WrittenBy(c) == r.value.1 + r.value.0.buffer
    ensures r.Some? ==> |r.value.1| == RequestedBy(c)
  {
    match c
    case Write(data) => Some((MockWrite(m, data).mock, []))
    case Flush => Some((MockFlush(m).0, []))
    case Read(n) =>
      if n <= |m.buffer| then
        var o := MockRead(m, Zeros(n));
        Some((o.mock, o.buf))
      else None
  }

  /** Runs `calls` in order from `m`. Yields the final mock and everything
      read, concatenated; `None` when some read would ask for more bytes than
      are queued, where `Vec::remove` panics in the Rust code. */
  function Replay(m: MockReadWrite, calls: seq<Call>): Option<(MockReadWrite, seq<Byte>)>
    decreases |calls|
  {
    if |calls| == 0 then Some((m, []))
    else match Step(m, calls[0])
      case None => None
      case Some((next, got)) =>
        match Replay(next, calls[1..])
        case None => None
        case Some((last, out)) => Some((last, got + out))
  }

  /** All bytes the calls write, in order. */
  function Written(calls: seq<Call>): seq<Byte>
    decreases |calls|
  {
    if |calls| == 0 then []
    else WrittenBy(calls[0]) + Written(calls[1..])
  }

  /** The number of bytes the calls ask to read. */
  function Requested(calls: seq<Call>): nat
    decreases |calls|
  {
    if |calls| == 0 then 0
    else RequestedBy(calls[0]) + Requested(calls[1..])
  }

  /** The calls with every `flush` removed; the writes and reads stay, in
      order. */
  function WithoutFlushes(calls: seq<Call>): (r: seq<Call>)
    ensures |r| <= |calls|
    ensures forall k :: 0 <= k < |r| ==> !r[k].Flush?
    ensures Written(r) == Written(calls)
    ensures Requested(r) == Requested(calls)
    decreases |calls|
  {
    if |calls| == 0 then []
    else if calls[0].Flush? then WithoutFlushes(calls[1..])
    else
      var rest := WithoutFlushes(calls[1..]);
      assert ([calls[0]] + rest)[1..] == rest;
      [calls[0]] + rest
  }

  /** A call sequence never reads ahead of the data: before each read, the
      bytes asked for so far (this read included) are at most the bytes
      queued at the start plus those written so far. */
  ghost predicate NeverReadsAhead(queued: nat, calls: seq<Call>)
  {
    forall k :: 0 <= k < |calls| && calls[k].Read? ==>
      Requested(calls[..k + 1]) <= queued + |Written(calls[..k])|
  }

  /** The queue invariant: the bytes queued at the start followed by all
      bytes written equal all bytes read followed by what is still queued. */
  lemma {:induction false} Fifo(m: MockReadWrite, calls: seq<Call>)
    requires Replay(m, calls).Some?
    ensures m.buffer + Written(calls) == Replay(m, calls).value.1 + Replay(m, calls).value.0.buffer
    decreases |calls|
  {
    if |calls| > 0 {
      var c := calls[0];
      ReplayCons(m, calls);
      var next := Step(m, c).value.0;
      var got := Step(m, c).value.1;
      var last := Replay(next, calls[1..]).value.0;
      var out := Replay(next, calls[1..]).value.1;
      Fifo(next, calls[1..]);
      SeqAssoc(m.buffer, WrittenBy(c), Written(calls[1..]));
      SeqAssoc(got, next.buffer, Written(calls[1..]));
      SeqAssoc(got, out, last.buffer);
    }
  }

  /** Unfolds a replay that succeeds at its first call. */
  lemma ReplayCons(m: MockReadWrite, calls: seq<Call>)
    requires |calls| > 0
    requires Replay(m, calls).Some?
    ensures Step(m, calls[0]).Some?
    ensures var next := Step(m, calls[0]).value.0;
            Replay(next, calls[1..]).Some?
            && Replay(m, calls).value.0 == Replay(next, calls[1..]).value.0
            && Replay(m, calls).value.1 == Step(m, calls[0]).value.1 + Replay(next, calls[1..]).value.1
  {
  }

  lemma SeqAssoc(a: seq<Byte>, b: seq<Byte>, c: seq<Byte>)
    ensures (a + b) + c == a + (b + c)
  {
  }

  /** What the replay consumes: it reads exactly the bytes requested, and
      the queue ends with the bytes it started with, plus those written,
      minus those read. */
  lemma ReplayAccounting(m: MockReadWrite, calls: seq<Call>)
    requires Replay(m, calls).Some?
    ensures |Replay(m, calls).value.1| == Requested(calls)
    ensures |Replay(m, calls).value.0.buffer| == |m.buffer| + |Written(calls)| - Requested(calls)
  {
    Fifo(m, calls);
    ReadLength(m, calls);
  }

  lemma {:induction false} ReadLength(m: MockReadWrite, calls: seq<Call>)
    requires Replay(m, calls).Some?
    ensures |Replay(m, calls).value.1| == Requested(calls)
    decreases |calls|
  {
    if |calls| > 0 {
      ReadLength(Step(m, calls[0]).value.0, calls[1..]);
    }
  }

  /** Splitting the counts of a non-empty prefix at its first call. */
  lemma PrefixCounts(calls: seq<Call>, k: nat)
    requires 0 < k <= |calls|
    ensures Written(calls[..k]) == WrittenBy(calls[0]) + Written(calls[1..][..k - 1])
    ensures Requested(calls[..k]) == RequestedBy(calls[0]) + Requested(calls[1..][..k - 1])
  {
    assert calls[..k][1..] == calls[1..][..k - 1];
  }

  /** A replay succeeds exactly when the calls never read ahead of the data:
      the only way the mock fails is the panic of an over-long read. */
  lemma {:induction false} ReplaySucceedsIff(m: MockReadWrite, calls: seq<Call>)
    ensures Replay(m, calls).Some? <==> NeverReadsAhead(|m.buffer|, calls)
    decreases |calls|
  {
    if |calls| > 0 {
      var c := calls[0];
      PrefixCounts(calls, 1);
      if RequestedBy(c) > |m.buffer| {
        assert Requested(calls[..1]) > |m.buffer| + |Written(calls[..0])|;
      } else {
        var next := Step(m, c).value.0;
        assert |next.buffer| == |m.buffer| + |WrittenBy(c)| - RequestedBy(c);
        ReplaySucceedsIff(next, calls[1..]);
        ShiftNeverReadsAhead(|m.buffer|, calls);
      }
    }
  }

  /** `NeverReadsAhead` after the first call, given that the first call
      itself does not read ahead. */
  lemma ShiftNeverReadsAhead(queued: nat, calls: seq<Call>)
    requires |calls| > 0
    requires RequestedBy(calls[0]) <= queued
    ensures var after := queued + |WrittenBy(calls[0])| - RequestedBy(calls[0]);
            NeverReadsAhead(queued, calls) <==> NeverReadsAhead(after, calls[1..])
  {
    var w := |WrittenBy(calls[0])|;
    var q := RequestedBy(calls[0]);
    forall k | 0 < k < |calls|
      ensures Requested(calls[..k + 1]) == q + Requested(calls[1..][..k])
      ensures |Written(calls[..k])| == w + |Written(calls[1..][..k - 1])|
    {
      PrefixCounts(calls, k + 1);
      PrefixCounts(calls, k);
    }
    PrefixCounts(calls, 1);
    if NeverReadsAhead(queued, calls) {
      forall j | 0 <= j < |calls[1..]| && calls[1..][j].Read?
        ensures Requested(calls[1..][..j + 1]) <= queued + w - q + |Written(calls[1..][..j])|
      {
        assert calls[j + 1].Read?;
        assert Requested(calls[..j + 2]) <= queued + |Written(calls[..j + 1])|;
        assert Requested(calls[..j + 2]) == q + Requested(calls[1..][..j + 1]);
        assert |Written(calls[..j + 1])| == w + |Written(calls[1..][..j])|;
      }
    }
    if NeverReadsAhead(queued + w - q, calls[1..]) {
      forall k | 0 <= k < |calls| && calls[k].Read?
        ensures Requested(calls[..k + 1]) <= queued + |Written(calls[..k])|
      {
        if k > 0 {
          assert calls[1..][k - 1].Read?;
          assert Requested(calls[1..][..k]) <= queued + w - q + |Written(calls[1..][..k - 1])|;
          assert Requested(calls[..k + 1]) == q + Requested(calls[1..][..k]);
          assert |Written(calls[..k])| == w + |Written(calls[1..][..k - 1])|;
        }
      }
    }
  }

  /** Flushing the mock is unobservable: dropping every `flush` from a call
      sequence changes neither what is read nor the final queue. */
  lemma {:induction false} FlushIsUnobservable(m: MockReadWrite, calls: seq<Call>)
    ensures Replay(m, calls) == Replay(m, WithoutFlushes(calls))
    decreases |calls|
  {
    if |calls| > 0 {
      var c := calls[0];
      if c.Flush? {
        assert Step(m, c) == Some((m, []));
        assert WithoutFlushes(calls) == WithoutFlushes(calls[1..]);
        FlushIsUnobservable(m, calls[1..]);
        if Replay(m, calls[1..]).Some? {
          var out := Replay(m, calls[1..]).value.1;
          assert [] + out == out;
        }
      } else {
        assert WithoutFlushes(calls)[0] == c;
        assert WithoutFlushes(calls)[1..] == WithoutFlushes(calls[1..]);
        if Step(m, c).Some? {
          FlushIsUnobservable(Step(m, c).value.0, calls[1..]);
        }
      }
    }
  }
}
