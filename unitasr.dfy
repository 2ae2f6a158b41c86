/**
 * The UnitASR driver for the M5Unit-ASR voice-recognition module: each
 * poll cycle reads the bytes the UART has, scans the receive buffer for one
 * packet and dispatches its command. The UART is abstracted as the outcomes
 * of the reads made in one cycle.
 */
module UnitAsr {
  import opened Wrappers
  import opened RxBuffer
  import opened Scanner
  import opened Registry

  /** WAKEUP_CMD: the command the module sends when it wakes up. */
  const WakeupCmd: Byte := 0xFF

  /** The most recent element of `s`, if any. */
  function LastOf(s: seq<Byte>): (r: Option<Byte>)
    ensures r.Some? <==> s != []
    ensures r.Some? ==> r.value == s[|s| - 1]
  {
    if s == [] then None else Some(s[|s| - 1])
  }

  class UnitASR {
    /** @rx_buffer: bytes received and not yet consumed, oldest first. */
    var rxBuffer: seq<Byte>
    /** @command_handlers */
    var commandHandlers: Handlers
    /** @unknown_handler */
    var unknownHandler: UnknownHandler
    /** @current_command_num: the last command recognised, `None` before the first. */
    var currentCommandNum: Option<Byte>
    /** @is_awake */
    var isAwake: bool
    /** The handler invocations made so far, oldest first. */
    var trace: seq<Call>
    /** The commands dispatched so far, oldest first. */
    ghost var history: seq<Byte>

    /**
     * The driver's invariant: the buffer is within its bound, the current
     * command is the last one dispatched, the module is awake exactly when
     * WAKEUP_CMD has been dispatched, and every dispatch made one invocation.
     */
    ghost predicate Valid()
      reads this
    {
      |rxBuffer| <= BufferMaxSize &&
      currentCommandNum == LastOf(history) &&
      (isAwake <==> WakeupCmd in history) &&
      |trace| == |history|
    }

    /**
     * The state after the outcome `o` of one scan has been acted on, from a
     * state with the given history, current command, wake flag and trace:
     * the buffer is what the scan left; a command found is appended to the
     * history, becomes the current command, wakes the module if it is
     * WAKEUP_CMD and makes the one invocation `Dispatch` names; with no
     * command, none of these change.
     */
    ghost predicate ScanApplied(o: ScanOutcome, history0: seq<Byte>, current0: Option<Byte>, awake0: bool, trace0: seq<Call>)
      reads this
    {
      && rxBuffer == o.rest
      && history == history0 + o.cmd.ToSeq()
      && currentCommandNum == (if o.cmd.Some? then o.cmd else current0)
      && isAwake == (awake0 || o.cmd == Some(WakeupCmd))
      && trace == trace0 + (if o.cmd.Some? then [Dispatch(commandHandlers, unknownHandler, o.cmd.value)] else [])
    }

    /** A fresh driver: empty buffer, no handlers, the do-nothing unknown handler, not awake. */
    constructor ()
      ensures Valid()
      ensures rxBuffer == [] && commandHandlers == map[] && unknownHandler == DefaultNoOp
      ensures currentCommandNum == None && !isAwake && trace == [] && history == []
    {
      rxBuffer := [];
      commandHandlers := map[];
      unknownHandler := DefaultNoOp;
      currentCommandNum := None;
      isAwake := false;
      trace := [];
      history := [];
    }

    /** Registers `block` for `cmdNum`, replacing any earlier registration. */
    method On(cmdNum: int, block: Option<HandlerId>)
      requires Valid()
      modifies this`commandHandlers
      ensures Valid()
      ensures commandHandlers == old(commandHandlers)[cmdNum := block]
    {
      commandHandlers := commandHandlers[cmdNum := block];
    }

    /** Installs the handler for unregistered commands, replacing the previous one. */
    method OnUnknown(block: HandlerId)
      requires Valid()
      modifies this`unknownHandler
      ensures Valid()
      ensures unknownHandler == UnknownBlock(block)
    {
      unknownHandler := UnknownBlock(block);
    }

    /**
     * One poll cycle: receive every byte the UART delivers, then extract and
     * dispatch at most one packet. The handlers are not changed.
     */
    method Update(input: seq<Option<Byte>>)
      requires Valid()
      modifies this
      ensures Valid()
      ensures commandHandlers == old(commandHandlers) && unknownHandler == old(unknownHandler)
      ensures ScanApplied(Scan(Receive(old(rxBuffer), input)),
        old(history), old(currentCommandNum), old(isAwake), old(trace))
    {
      ghost var history0, current0, awake0, trace0 := history, currentCommandNum, isAwake, trace;
      ghost var received := Receive(rxBuffer, input);
      ReceiveData(input);
      assert rxBuffer == received;
      assert Valid();
      ParsePackets();
      assert ScanApplied(Scan(received), history0, current0, awake0, trace0);
    }

    /** The most recently recognised command, `None` before the first. */
    function CurrentCommandNum(): (c: Option<Byte>)
      reads this
      requires Valid()
      ensures c == LastOf(history)
    {
      currentCommandNum
    }

    /** Whether the module has woken up. */
    predicate Awake()
      reads this
      requires Valid()
      ensures Awake() <==> WakeupCmd in history
    {
      isAwake
    }

    /** The number of bytes waiting in the receive buffer. */
    function BufferSize(): (n: nat)
      reads this
      requires Valid()
      ensures n <= BufferMaxSize
    {
      |rxBuffer|
    }

    /**
     * The receive loop: one turn per read outcome, each appending the byte
     * read, if any, and evicting the oldest byte once over the bound.
     */
    method ReceiveData(input: seq<Option<Byte>>)
      modifies this`rxBuffer
      ensures rxBuffer == Receive(old(rxBuffer), input)
      ensures |old(rxBuffer)| <= BufferMaxSize ==>
        rxBuffer == KeepNewest(old(rxBuffer) + Delivered(input))
    {
      var k := 0;
      while k < |input|
        invariant 0 <= k <= |input|
        invariant |old(rxBuffer)| <= BufferMaxSize ==> |rxBuffer| <= BufferMaxSize
        invariant rxBuffer == Receive(old(rxBuffer), input[..k])
      {
        var data := input[k];
        if data.Some? {
          rxBuffer := rxBuffer + [data.value];
        }
        if |rxBuffer| > BufferMaxSize {
          rxBuffer := rxBuffer[1..];
        }
        assert input[..k + 1][..k] == input[..k];
        k := k + 1;
      }
      assert input[..k] == input;
      if |old(rxBuffer)| <= BufferMaxSize {
        ReceiveKeepsNewest(old(rxBuffer), input);
      }
    }

    /** Scans for one packet and, when there is one, records and dispatches its command. */
    method ParsePackets()
      requires Valid()
      modifies this`rxBuffer, this`currentCommandNum, this`isAwake, this`trace, this`history
      ensures Valid()
      ensures ScanApplied(Scan(old(rxBuffer)), old(history), old(currentCommandNum), old(isAwake), old(trace))
    {
      var cmd := FindAndParsePacket();
      if cmd.Some? {
        currentCommandNum := cmd;
        history := history + [cmd.value];
        HandleCommand(cmd.value);
      }
    }

    /**
     * The scanner: walks the buffer for the leftmost packet; on a match drops
     * everything up to and including it and returns its command; otherwise
     * drops five bytes when more than ten are buffered.
     */
    method FindAndParsePacket() returns (cmd: Option<Byte>)
      modifies this`rxBuffer
      ensures Scan(old(rxBuffer)) == ScanOutcome(cmd, rxBuffer)
    {
      if |rxBuffer| < FrameLength {
        return None;
      }
      var i := 0;
      while i <= |rxBuffer| - FrameLength
        invariant rxBuffer == old(rxBuffer)
        invariant 0 <= i <= |rxBuffer| - FrameLength + 1
        invariant FindFrom(rxBuffer, 0) == FindFrom(rxBuffer, i)
      {
        if rxBuffer[i] == 0xAA && rxBuffer[i + 1] == 0x55 {
          if rxBuffer[i + 3] == 0x55 && rxBuffer[i + 4] == 0xAA {
            cmd := Some(rxBuffer[i + 2]);
            DropFront(i + FrameLength);
            return;
          }
        }
        i := i + 1;
      }
      if |rxBuffer| > ResyncThreshold {
        DropFront(ResyncDrop);
      }
      cmd := None;
    }

    /** Shifts `n` bytes off the head of the buffer, one at a time; a shift of an empty buffer does nothing. */
    method DropFront(n: nat)
      modifies this`rxBuffer
      ensures rxBuffer == if n <= |old(rxBuffer)| then old(rxBuffer)[n..] else []
    {
      var k := 0;
      while k < n
        invariant 0 <= k <= n
        invariant rxBuffer == if k <= |old(rxBuffer)| then old(rxBuffer)[k..] else []
      {
        if rxBuffer != [] {
          rxBuffer := rxBuffer[1..];
        }
        k := k + 1;
      }
    }

    /** Latches the wake flag on WAKEUP_CMD, then calls the registered block or the unknown handler. */
    method HandleCommand(cmd: Byte)
      modifies this`isAwake, this`trace
      ensures isAwake == (old(isAwake) || cmd == WakeupCmd)
      ensures trace == old(trace) + [Dispatch(commandHandlers, unknownHandler, cmd)]
    {
      if cmd == WakeupCmd {
        isAwake := true;
      }
      if IsRegistered(commandHandlers, cmd) {
        trace := trace + [HandlerCall(commandHandlers[cmd].value)];
      } else {
        trace := trace + [UnknownCall(unknownHandler, cmd)];
      }
    }
  }

  /**
   * A registered command fires its block: after registering `block` for
   * `cmd`, a cycle that receives the packet for `cmd` (into a buffer holding
   * no 0xAA) calls exactly that block with no argument, makes `cmd` the
   * current command, wakes the module if `cmd` is WAKEUP_CMD and empties the buffer.
   */
  method RegisteredCommandFires(asr: UnitASR, cmd: Byte, block: HandlerId)
    requires asr.Valid() && NoHeaderByte(asr.rxBuffer)
    modifies asr
    ensures asr.Valid()
    ensures asr.trace == old(asr.trace) + [HandlerCall(block)]
    ensures asr.currentCommandNum == Some(cmd)
    ensures asr.isAwake == (old(asr.isAwake) || cmd == WakeupCmd)
    ensures asr.rxBuffer == []
  {
    asr.On(cmd, Some(block));
    CycleReceivesFrame(asr.rxBuffer, [], cmd);
    assert [] + FrameBytes(cmd) == FrameBytes(cmd);
    asr.Update(AllRead(FrameBytes(cmd)));
  }
}
