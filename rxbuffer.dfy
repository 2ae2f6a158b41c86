/**
 * The bounded receive buffer of the UnitASR driver: every byte read from the
 * UART is appended at the tail, and once the buffer holds more than
 * BufferMaxSize bytes the oldest one is evicted from the head.
 */
module RxBuffer {
  import opened Wrappers

  /** A byte as read from the UART (`data[0].ord`). */
  type Byte = x: int | 0 <= x < 256

  /** BUFFER_MAX_SIZE: the most bytes the receive buffer keeps. */
  const BufferMaxSize: nat := 20

  /**
   * One turn of the receive loop. `data` is the outcome of one `read(1)`:
   * `Some(b)` when one byte came back, `None` for a failed or short read.
   */
  function ReceiveStep(buf: seq<Byte>, data: Option<Byte>): (r: seq<Byte>)
    ensures |buf| <= BufferMaxSize ==> r == KeepNewest(buf + data.ToSeq())
  {
    var pushed := if data.Some? then buf + [data.value] else buf;
    if |pushed| > BufferMaxSize then pushed[1..] else pushed
  }

  /** The buffer after one receive loop that saw the read outcomes `outcomes`, in order. */
  function Receive(buf: seq<Byte>, outcomes: seq<Option<Byte>>): (r: seq<Byte>)
    ensures |buf| <= BufferMaxSize ==> |r| <= BufferMaxSize
    decreases |outcomes|
  {
    if outcomes == [] then buf
    else ReceiveStep(Receive(buf, outcomes[..|outcomes| - 1]), outcomes[|outcomes| - 1])
  }

  /** The bytes that the successful reads among `outcomes` delivered, in order. */
  function Delivered(outcomes: seq<Option<Byte>>): seq<Byte>
    decreases |outcomes|
  {
    if outcomes == [] then []
    else Delivered(outcomes[..|outcomes| - 1]) + outcomes[|outcomes| - 1].ToSeq()
  }

  /** Reference definition of the buffer: the newest BufferMaxSize bytes of `s`. */
  function KeepNewest(s: seq<Byte>): (r: seq<Byte>)
    ensures |r| <= BufferMaxSize
    ensures |r| == if |s| <= BufferMaxSize then |s| else BufferMaxSize
  {
    if |s| <= BufferMaxSize then s else s[|s| - BufferMaxSize..]
  }

  /** What KeepNewest keeps is a suffix of its input: the newest bytes, in their order. */
  lemma KeepNewestIsSuffix(s: seq<Byte>)
    ensures KeepNewest(s) == s[|s| - |KeepNewest(s)|..]
  {
  }

  /** Keeping the newest bytes, then appending more, then keeping the newest again loses nothing extra. */
  lemma {:induction false} KeepNewestAppend(s: seq<Byte>, t: seq<Byte>)
    ensures KeepNewest(KeepNewest(s) + t) == KeepNewest(s + t)
  {
    if |s| > BufferMaxSize {
      var k, u := |s| - BufferMaxSize, s + t;
      assert KeepNewest(s) == s[k..];
      assert s[k..] + t == u[k..];
      if |t| > 0 {
        assert KeepNewest(u[k..]) == u[k..][|t|..] == u[k + |t|..];
      }
    }
  }

  /**
   * Whatever arrives, a receive loop that starts within the bound leaves
   * exactly the newest BufferMaxSize of all the bytes it has seen, in order:
   * the bound holds, only the oldest bytes are evicted, and failed outcomes add nothing.
   */
  lemma {:induction false} ReceiveKeepsNewest(buf: seq<Byte>, outcomes: seq<Option<Byte>>)
    requires |buf| <= BufferMaxSize
    ensures Receive(buf, outcomes) == KeepNewest(buf + Delivered(outcomes))
    ensures |Receive(buf, outcomes)| <= BufferMaxSize
    decreases |outcomes|
  {
    if outcomes != [] {
      var init, last := outcomes[..|outcomes| - 1], outcomes[|outcomes| - 1];
      var before := buf + Delivered(init);
      ReceiveKeepsNewest(buf, init);
      KeepNewestAppend(before, last.ToSeq());
      assert buf + Delivered(outcomes) == before + last.ToSeq() by {
        assert Delivered(outcomes) == Delivered(init) + last.ToSeq();
      }
      calc {
        Receive(buf, outcomes);
        ReceiveStep(Receive(buf, init), last);
        ReceiveStep(KeepNewest(before), last);
        KeepNewest(KeepNewest(before) + last.ToSeq());
        KeepNewest(before + last.ToSeq());
      }
    }
  }

  /** A failed or short read leaves the buffer as it was. */
  lemma ShortReadAppendsNothing(buf: seq<Byte>)
    requires |buf| <= BufferMaxSize
    ensures ReceiveStep(buf, None) == buf
  {
  }

  /** A byte pushed onto a buffer that is not full is appended and nothing is evicted. */
  lemma PushBelowCapacity(buf: seq<Byte>, b: Byte)
    requires |buf| < BufferMaxSize
    ensures ReceiveStep(buf, Some(b)) == buf + [b]
  {
  }

  /** A byte pushed onto a full buffer evicts exactly the oldest byte; the rest keep their order. */
  lemma PushEvictsOldest(buf: seq<Byte>, b: Byte)
    requires |buf| == BufferMaxSize
    ensures ReceiveStep(buf, Some(b)) == buf[1..] + [b]
  {
  }

  /** The read outcomes of a cycle in which every read returns its byte. */
  function AllRead(bytes: seq<Byte>): (r: seq<Option<Byte>>)
    ensures |r| == |bytes|
    ensures forall k :: 0 <= k < |bytes| ==> r[k] == Some(bytes[k])
  {
    seq(|bytes|, k requires 0 <= k < |bytes| => Some(bytes[k]))
  }

  /** When every read succeeds, the bytes delivered are exactly the bytes sent. */
  lemma {:induction false} DeliveredAllRead(bytes: seq<Byte>)
    ensures Delivered(AllRead(bytes)) == bytes
    decreases |bytes|
  {
    if bytes != [] {
      var init := bytes[..|bytes| - 1];
      DeliveredAllRead(init);
      assert AllRead(bytes)[..|bytes| - 1] == AllRead(init);
      assert bytes == init + [bytes[|bytes| - 1]];
    }
  }

  /** While the bound is not reached, receiving appends every delivered byte and evicts nothing. */
  lemma ReceiveWithinBound(buf: seq<Byte>, outcomes: seq<Option<Byte>>)
    requires |buf| + |Delivered(outcomes)| <= BufferMaxSize
    ensures Receive(buf, outcomes) == buf + Delivered(outcomes)
  {
    ReceiveKeepsNewest(buf, outcomes);
  }

  /** A cycle in which every read succeeds leaves the newest BufferMaxSize of the old and the sent bytes. */
  lemma ReceiveAllRead(buf: seq<Byte>, bytes: seq<Byte>)
    requires |buf| <= BufferMaxSize
    ensures Receive(buf, AllRead(bytes)) == KeepNewest(buf + bytes)
  {
    DeliveredAllRead(bytes);
    ReceiveKeepsNewest(buf, AllRead(bytes));
  }

  /**
   * Keeping the newest bytes of `p + f`, when `f` fits in the buffer, drops
   * only a prefix of `p`, never a byte of `f`.
   */
  lemma KeepNewestSplit(p: seq<Byte>, f: seq<Byte>) returns (n: nat)
    requires |f| <= BufferMaxSize
    ensures n <= |p| && KeepNewest(p + f) == p[n..] + f
  {
    n := if |p + f| <= BufferMaxSize then 0 else |p + f| - BufferMaxSize;
    assert (p + f)[n..] == p[n..] + f;
  }

  /**
   * The newest bytes of `buf + (lead + f)`, when `f` fits in the buffer,
   * are a suffix of `buf + lead` followed by all of `f`.
   */
  lemma {:induction false} KeepNewestKeepsTail(buf: seq<Byte>, lead: seq<Byte>, f: seq<Byte>) returns (n: nat)
    requires |f| <= BufferMaxSize
    ensures n <= |buf + lead|
    ensures KeepNewest(buf + (lead + f)) == (buf + lead)[n..] + f
  {
    assert buf + (lead + f) == (buf + lead) + f;
    n := KeepNewestSplit(buf + lead, f);
  }
}
