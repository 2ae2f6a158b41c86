# UnitASR driver model

A Dafny model of `UnitASR`, the PicoRuby driver for the M5Unit-ASR
voice-recognition module. The module sends unframed bytes over a UART; the
driver keeps them in a bounded receive buffer (at most 20 bytes, oldest
evicted first), scans the buffer for the five-byte packet
`0xAA 0x55 CMD 0x55 0xAA`, takes the leftmost one, resynchronises by
dropping five bytes when more than ten bytes hold no packet, and dispatches
the command to a handler block registered for it or to the unknown-command
handler. The wake flag latches on command `0xFF` and is never cleared.

Layout, following the driver's parts:

- `wrappers.dfy` (`Wrappers`): `Option`, standing for Ruby's value-or-`nil`.
- `rxbuffer.dfy` (`RxBuffer`): the byte type, the receive loop as a
  function of the read outcomes, and its reference definition `KeepNewest`
  (the newest 20 bytes of everything received).
- `scanner.dfy` (`Scanner`): the packet predicate, the leftmost-match
  search and the scan with its resynchronisation rule, with the lemmas that
  characterise it.
- `registry.dfy` (`Registry`): the handler table and the dispatch rule.
- `unitasr.dfy` (`UnitAsr`): the class `UnitASR`. Its fields mirror the Ruby
  instance variables. Its methods mirror the Ruby methods, with the same
  `while` loops and one-at-a-time `shift`s. Each method's `ensures` ties the
  new state to the functions above. A ghost `history` of dispatched commands
  lets `Valid()` state that the current command is the last one dispatched
  and that the module is awake exactly when `0xFF` has been dispatched.

The UART is a parameter: `Update` takes the outcomes of the `read(1)` calls
made while bytes were available in that cycle, `Some(b)` for a byte and
`None` for a failed or short read. Handler blocks are opaque numbers; a
dispatch appends to `trace` which block was called and with what argument.

Handler keys are any integer, not only bytes, because `on` stores whatever
key it is given. Limiting keys to integers loses nothing: a key that is not
an Integer (`7.0`, `"7"`) never matches the Integer command under `Hash`
key equality (`eql?`), so it never fires. A key bound to no block (`on(n)`
without a block stores `nil`) dispatches to the unknown handler.

## Model

| member | source | states |
|---|---|---|
| `RxBuffer.ReceiveStep` | mrblib/unitasr.rb:75-82 | one turn of the receive loop on a buffer within the bound leaves the newest 20 of the old bytes plus the byte read, if any |
| `RxBuffer.KeepNewest` | mrblib/unitasr.rb:80-82 | the reference buffer content: all of the input when it has at most 20 bytes, otherwise exactly 20 |
| `RxBuffer.KeepNewestIsSuffix` | mrblib/unitasr.rb:80-82 | what the reference keeps is a suffix of its input: the newest bytes, in their order |
| `RxBuffer.Receive` | mrblib/unitasr.rb:73-84 | the receive loop over one cycle's read outcomes, in order; started within the bound it ends within it |
| `RxBuffer.ReceiveKeepsNewest` | mrblib/unitasr.rb:73-84 | after any sequence of reads the buffer is exactly the newest 20 of the old bytes followed by the delivered bytes, so its length stays at most 20 |
| `RxBuffer.ReceiveWithinBound` | mrblib/unitasr.rb:73-84 | while fewer than 21 bytes are held, every delivered byte is appended and nothing is evicted |
| `RxBuffer.ShortReadAppendsNothing` | mrblib/unitasr.rb:75-78 | a failed or short read leaves the buffer unchanged |
| `RxBuffer.PushBelowCapacity` | mrblib/unitasr.rb:77-82 | a byte pushed onto a buffer of fewer than 20 bytes is appended, nothing evicted |
| `RxBuffer.PushEvictsOldest` | mrblib/unitasr.rb:80-82 | a byte pushed onto a full buffer evicts exactly the oldest byte and keeps the rest in order |
| `RxBuffer.DeliveredAllRead` | mrblib/unitasr.rb:74-78 | when every read succeeds, the bytes appended are exactly the bytes sent, in order |
| `RxBuffer.ReceiveAllRead` | mrblib/unitasr.rb:73-84 | a cycle in which every read succeeds leaves the newest 20 of the old and the sent bytes |
| `Scanner.FrameAtIsPacket` | mrblib/unitasr.rb:105-106 | the frame test `IsFrameAt` at `i` holds exactly when the five bytes from `i` are the packet carrying `buf[i+2]` |
| `Scanner.FindFrom` | mrblib/unitasr.rb:103-113 | the search returns an index where a packet starts and before which, from its start, none does, or none when no packet starts at or after its start |
| `Scanner.Scan` | mrblib/unitasr.rb:100-120 | the scan removes only a prefix of the buffer and yields a command exactly when the buffer holds a packet |
| `Scanner.ScanTooShort` | mrblib/unitasr.rb:101 | fewer than 5 bytes: no command and the buffer unchanged |
| `Scanner.ScanLeftmost` | mrblib/unitasr.rb:103-113 | with the leftmost packet at `i`, the command is `buf[i+2]` and the buffer left is exactly `buf[i+5..]` |
| `Scanner.ScanResync` | mrblib/unitasr.rb:115-119 | no packet and more than 10 bytes: no command and exactly the first 5 bytes removed |
| `Scanner.ScanWaits` | mrblib/unitasr.rb:115-119 | no packet and at most 10 bytes: no command and the buffer unchanged |
| `Scanner.ScanFrame` | mrblib/unitasr.rb:98-109 | a packet at the head decodes to its own command and leaves exactly the bytes after it |
| `Scanner.ScanSkipsGarbage` | mrblib/unitasr.rb:103-109 | leading bytes none of which is 0xAA are dropped together with the packet after them, and the bytes after the packet are kept |
| `Scanner.ScanOnePacketPerCall` | mrblib/unitasr.rb:103-109 | of two back-to-back packets one scan yields only the first command and leaves the second packet for the next scan |
| `Scanner.ResyncKeepsPendingFrames` | mrblib/unitasr.rb:115-117 | resynchronisation never drops a byte of a packet that later bytes could complete: every packet of the buffer plus later bytes survives, shifted by five |
| `Scanner.ReceiveFrameKeepsFrame` | mrblib/unitasr.rb:73-84 | receiving a packet after leading bytes keeps the whole packet after a suffix of the older bytes: eviction never reaches the packet |
| `Scanner.CycleReceivesFrame` | mrblib/unitasr.rb:73-120 | a cycle that receives a packet after any number of leading bytes, into a buffer within the bound, yields its command and leaves the buffer empty, when no buffered or leading byte is 0xAA; eviction may drop old bytes but never the packet |
| `Scanner.QueuedPacketFiresFirst` | mrblib/unitasr.rb:73-120 | a packet left queued by an earlier cycle is taken before one arriving now, which stays buffered for the next cycle |
| `Registry.Dispatch` | mrblib/unitasr.rb:130-134 | the invocation is a registered block exactly when the command is registered, and then it is the block registered for that command; otherwise it is the unknown handler with exactly that command |
| `Registry.RegistrationLastWins` | mrblib/unitasr.rb:26-28 | registering for a key decides only that key's dispatch: the last registration wins, no block means the unknown handler |
| `Registry.DispatchDefault` | mrblib/unitasr.rb:15-16 | with nothing registered every command goes to the default no-op handler with its own number |
| `UnitAsr.UnitASR.constructor` | mrblib/unitasr.rb:12-21 | empty buffer, empty handler table, no-op unknown handler, no current command, not awake |
| `UnitAsr.UnitASR.On` | mrblib/unitasr.rb:26-28 | the handler table is the old one with `cmdNum` bound to the block given |
| `UnitAsr.UnitASR.OnUnknown` | mrblib/unitasr.rb:32-34 | the unknown handler is replaced by the block given |
| `UnitAsr.UnitASR.Update` | mrblib/unitasr.rb:38-41 | one cycle: buffer becomes the scan of the received buffer; at most one command joins the history; current command changes only when one is found; the wake flag only turns on, on 0xFF; the handlers are unchanged |
| `UnitAsr.UnitASR.CurrentCommandNum` | mrblib/unitasr.rb:45-47 | the last command dispatched, none before the first |
| `UnitAsr.UnitASR.Awake` | mrblib/unitasr.rb:51-53 | awake exactly when 0xFF has been dispatched |
| `UnitAsr.UnitASR.BufferSize` | mrblib/unitasr.rb:57-59 | the buffer occupancy never exceeds 20 |
| `UnitAsr.UnitASR.ReceiveData` | mrblib/unitasr.rb:73-84 | the loop leaves the buffer as the receive function says, the newest 20 bytes received |
| `UnitAsr.UnitASR.ParsePackets` | mrblib/unitasr.rb:88-95 | a found command becomes the current command, is added to the history and is dispatched; with none, only the buffer changes |
| `UnitAsr.UnitASR.FindAndParsePacket` | mrblib/unitasr.rb:100-120 | the scanning loop returns the command and leaves the buffer exactly as `Scan` specifies |
| `UnitAsr.UnitASR.DropFront` | mrblib/unitasr.rb:108 | `n` shifts leave the buffer without its first `n` bytes (empty when it held fewer) |
| `UnitAsr.UnitASR.HandleCommand` | mrblib/unitasr.rb:125-135 | the wake flag is set on 0xFF and kept otherwise; exactly one invocation, the one `Dispatch` names, is logged |
| `UnitAsr.RegisteredCommandFires` | mrblib/unitasr.rb:26-41 | from a valid state whose buffer holds no 0xAA byte, after `on(cmd)` with a block, a cycle receiving the packet for `cmd` calls exactly that block, makes `cmd` current, wakes on 0xFF and empties the buffer; a packet still queued in the buffer would fire first |

## Left out

- `initialize_module`: the two start-up delays and the clearing of the UART's own receive buffer are hardware timing and I/O.
- The UART object: `bytes_available` and `read` are replaced by the finite list of read outcomes of one cycle. A UART that keeps reporting bytes while every read fails would make the Ruby loop run forever; the model has no such case.
- Handler block bodies: blocks are opaque numbers and a call is recorded in `trace`. Exceptions raised inside a block are not modelled.
- `OnUnknown`: `on_unknown` without a block stores `nil`, and the next unknown command would then raise `NoMethodError`; the model always takes a block.
- Ruby's `nil`/`false` handler values other than "no block": a key is registered when it is bound to a block.
- Byte values: `data[0].ord` is taken to be the byte value 0..255, which assumes `read(1)` returns a binary string of one byte. The packet bytes 0xAA and 0xFF are above 0x7F, so a UART that decoded its input as UTF-8 would not yield them; that case is not modelled.
