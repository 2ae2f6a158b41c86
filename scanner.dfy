/**
 * The packet scanner of the UnitASR driver. A packet is the five bytes
 * 0xAA 0x55 CMD 0x55 0xAA; the scanner looks for the leftmost one in the
 * receive buffer, and when there is none it may drop bytes to resynchronise.
 */
module Scanner {
  import opened Wrappers
  import opened RxBuffer

  /** Length of one packet on the wire. */
  const FrameLength: nat := 5
  /** Above this many buffered bytes without a packet, the scanner resynchronises. */
  const ResyncThreshold: nat := 10
  /** How many bytes one resynchronisation drops from the head. */
  const ResyncDrop: nat := 5

  /** The packet that carries `cmd`. */
  function FrameBytes(cmd: Byte): (f: seq<Byte>)
    ensures |f| == FrameLength
  {
    [0xAA, 0x55, cmd, 0x55, 0xAA]
  }

  /** A packet starts at index `i` of `buf`; its middle (command) byte is unconstrained. */
  predicate IsFrameAt(buf: seq<Byte>, i: int) {
    0 <= i && i + FrameLength <= |buf| &&
    buf[i] == 0xAA && buf[i + 1] == 0x55 && buf[i + 3] == 0x55 && buf[i + 4] == 0xAA
  }

  /** The frame test accepts exactly the five-byte packets: those that carry their middle byte as command. */
  lemma FrameAtIsPacket(buf: seq<Byte>, i: int)
    requires 0 <= i && i + FrameLength <= |buf|
    ensures IsFrameAt(buf, i) <==> buf[i..i + FrameLength] == FrameBytes(buf[i + 2])
  {
    if buf[i..i + FrameLength] == FrameBytes(buf[i + 2]) {
      assert buf[i + 4] == buf[i..i + FrameLength][4];
    }
  }

  /** `buf` holds at least one complete packet. */
  predicate HasFrame(buf: seq<Byte>) {
    exists i :: 0 <= i < |buf| && IsFrameAt(buf, i)
  }

  /** `i` is the smallest index at which a packet starts. */
  predicate IsLeftmostFrame(buf: seq<Byte>, i: int) {
    IsFrameAt(buf, i) && forall j :: 0 <= j < i ==> !IsFrameAt(buf, j)
  }

  /** The smallest index at or after `from` where a packet starts, if any. */
  function FindFrom(buf: seq<Byte>, from: nat): (r: Option<nat>)
    ensures r.Some? ==> from <= r.value && IsFrameAt(buf, r.value)
    ensures r.Some? ==> forall j :: from <= j < r.value ==> !IsFrameAt(buf, j)
    ensures r.None? ==> forall j :: from <= j ==> !IsFrameAt(buf, j)
    decreases |buf| - from
  {
    if from + FrameLength > |buf| then None
    else if IsFrameAt(buf, from) then Some(from)
    else FindFrom(buf, from + 1)
  }

  /** What one scan yields: the command found, if any, and the buffer left behind. */
  datatype ScanOutcome = ScanOutcome(cmd: Option<Byte>, rest: seq<Byte>)

  /**
   * One call of the scanner. The scan only ever removes bytes from the head
   * of the buffer, and it yields a command exactly when the buffer holds a packet.
   */
  function Scan(buf: seq<Byte>): (o: ScanOutcome)
    ensures |o.rest| <= |buf| && o.rest == buf[|buf| - |o.rest|..]
    ensures o.cmd.Some? <==> HasFrame(buf)
  {
    if |buf| < FrameLength then ScanOutcome(None, buf)
    else match FindFrom(buf, 0)
      case Some(i) => ScanOutcome(Some(buf[i + 2]), buf[i + FrameLength..])
      case None =>
        if |buf| > ResyncThreshold then ScanOutcome(None, buf[ResyncDrop..])
        else ScanOutcome(None, buf)
  }

  /** Fewer than five bytes: nothing is found and the buffer is untouched. */
  lemma ScanTooShort(buf: seq<Byte>)
    requires |buf| < FrameLength
    ensures Scan(buf) == ScanOutcome(None, buf)
  {
  }

  /**
   * With the leftmost packet at `i`, the scan yields that packet's command
   * and leaves exactly what follows it: the leading bytes and the packet are
   * both dropped and nothing later is touched.
   */
  lemma ScanLeftmost(buf: seq<Byte>, i: int)
    requires IsLeftmostFrame(buf, i)
    ensures Scan(buf) == ScanOutcome(Some(buf[i + 2]), buf[i + FrameLength..])
  {
  }

  /** No packet in more than ten bytes: exactly the first five are dropped. */
  lemma ScanResync(buf: seq<Byte>)
    requires !HasFrame(buf) && |buf| > ResyncThreshold
    ensures Scan(buf) == ScanOutcome(None, buf[ResyncDrop..])
  {
  }

  /** No packet in at most ten bytes: nothing is found and the buffer is untouched. */
  lemma ScanWaits(buf: seq<Byte>)
    requires !HasFrame(buf) && |buf| <= ResyncThreshold
    ensures Scan(buf) == ScanOutcome(None, buf)
  {
  }

  /** Decoding inverts encoding: a packet at the head yields its command and leaves what follows. */
  lemma ScanFrame(cmd: Byte, tail: seq<Byte>)
    ensures Scan(FrameBytes(cmd) + tail) == ScanOutcome(Some(cmd), tail)
  {
    var buf := FrameBytes(cmd) + tail;
    assert IsLeftmostFrame(buf, 0);
    ScanLeftmost(buf, 0);
    assert buf[FrameLength..] == tail;
  }

  /**
   * Leading bytes none of which is 0xAA cannot start a packet, so they are
   * discarded together with the packet after them.
   */
  lemma ScanSkipsGarbage(garbage: seq<Byte>, cmd: Byte, tail: seq<Byte>)
    requires NoHeaderByte(garbage)
    ensures Scan(garbage + FrameBytes(cmd) + tail) == ScanOutcome(Some(cmd), tail)
  {
    var buf := garbage + FrameBytes(cmd) + tail;
    var i := |garbage|;
    forall j | 0 <= j < i
      ensures !IsFrameAt(buf, j)
    {
      assert buf[j] == garbage[j];
    }
    assert IsLeftmostFrame(buf, i);
    ScanLeftmost(buf, i);
    assert buf[i + FrameLength..] == tail;
  }

  /**
   * One scan takes at most one packet: of two back-to-back packets the first
   * scan yields only the first command, and a second scan the second.
   */
  lemma ScanOnePacketPerCall(cmd1: Byte, cmd2: Byte)
    ensures Scan(FrameBytes(cmd1) + FrameBytes(cmd2)) == ScanOutcome(Some(cmd1), FrameBytes(cmd2))
    ensures Scan(FrameBytes(cmd2)) == ScanOutcome(Some(cmd2), [])
  {
    ScanFrame(cmd1, FrameBytes(cmd2));
    ScanFrame(cmd2, []);
    assert FrameBytes(cmd2) + [] == FrameBytes(cmd2);
  }

  /**
   * Resynchronisation never discards the start of a packet that later bytes
   * could complete: every packet of the buffer extended by `more` lies past
   * the five dropped bytes, and is still there, five places earlier, once
   * they are gone.
   */
  lemma ResyncKeepsPendingFrames(buf: seq<Byte>, more: seq<Byte>)
    requires !HasFrame(buf) && |buf| > ResyncThreshold
    ensures forall j :: IsFrameAt(buf + more, j) ==>
      j >= ResyncDrop && IsFrameAt(Scan(buf).rest + more, j - ResyncDrop)
  {
    ScanResync(buf);
    var ext, rest := buf + more, buf[ResyncDrop..] + more;
    forall j | IsFrameAt(ext, j)
      ensures j >= ResyncDrop && IsFrameAt(rest, j - ResyncDrop)
    {
      if j + FrameLength <= |buf| {
        assert IsFrameAt(buf, j);
        assert false;
      }
      assert ext[ResyncDrop..] == rest;
    }
  }

  /** No byte of `s` is 0xAA, so no packet can start inside `s`. */
  predicate NoHeaderByte(s: seq<Byte>) {
    forall k :: 0 <= k < |s| ==> s[k] != 0xAA
  }

  /** Dropping a prefix of two sequences without 0xAA leaves a sequence without 0xAA. */
  lemma NoHeaderByteSuffix(buf: seq<Byte>, garbage: seq<Byte>, n: nat)
    requires NoHeaderByte(buf) && NoHeaderByte(garbage) && n <= |buf + garbage|
    ensures NoHeaderByte((buf + garbage)[n..])
  {
    var p := buf + garbage;
    forall k | 0 <= k < |p| - n
      ensures p[n..][k] != 0xAA
    {
      if n + k < |buf| {
        assert p[n + k] == buf[n + k];
      } else {
        assert p[n + k] == garbage[n + k - |buf|];
      }
    }
  }

  /**
   * Receiving a packet after leading bytes, into a buffer within the bound,
   * leaves a suffix of the buffered and leading bytes followed by the whole
   * packet: eviction never reaches the packet.
   */
  lemma {:induction false} ReceiveFrameKeepsFrame(buf: seq<Byte>, garbage: seq<Byte>, cmd: Byte) returns (kept: seq<Byte>)
    requires |buf| <= BufferMaxSize && NoHeaderByte(buf) && NoHeaderByte(garbage)
    ensures NoHeaderByte(kept)
    ensures Receive(buf, AllRead(garbage + FrameBytes(cmd))) == kept + FrameBytes(cmd)
  {
    ReceiveAllRead(buf, garbage + FrameBytes(cmd));
    var n := KeepNewestKeepsTail(buf, garbage, FrameBytes(cmd));
    NoHeaderByteSuffix(buf, garbage, n);
    kept := (buf + garbage)[n..];
  }

  /**
   * A poll cycle that receives a packet, after any number of leading bytes,
   * into a buffer within the bound, yields the packet's command and leaves
   * the buffer empty, provided neither the buffered bytes nor the leading
   * ones are 0xAA. Eviction may push out old and leading bytes, never the packet.
   */
  lemma {:induction false} CycleReceivesFrame(buf: seq<Byte>, garbage: seq<Byte>, cmd: Byte)
    requires |buf| <= BufferMaxSize && NoHeaderByte(buf) && NoHeaderByte(garbage)
    ensures Scan(Receive(buf, AllRead(garbage + FrameBytes(cmd)))) == ScanOutcome(Some(cmd), [])
  {
    var kept := ReceiveFrameKeepsFrame(buf, garbage, cmd);
    ScanSkipsGarbage(kept, cmd, []);
    assert kept + FrameBytes(cmd) + [] == kept + FrameBytes(cmd);
  }

  /**
   * A packet still queued from an earlier cycle is taken before one that
   * arrives now: the new packet stays in the buffer for the next cycle.
   */
  lemma {:induction false} QueuedPacketFiresFirst(queued: Byte, arriving: Byte)
    ensures Scan(Receive(FrameBytes(queued), AllRead(FrameBytes(arriving)))) ==
      ScanOutcome(Some(queued), FrameBytes(arriving))
  {
    DeliveredAllRead(FrameBytes(arriving));
    ReceiveWithinBound(FrameBytes(queued), AllRead(FrameBytes(arriving)));
    ScanFrame(queued, FrameBytes(arriving));
  }
}
