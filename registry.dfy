/**
 * The command registry of the UnitASR driver: a table from command number
 * to handler block, plus one handler for commands nobody registered.
 * Handler blocks are opaque identifiers; what a block does is the
 * application's business, so a dispatch only records which one fired.
 */
module Registry {
  import opened Wrappers
  import opened RxBuffer

  /** Identifies one handler block of the application. */
  type HandlerId = nat

  /** The handler for unregistered commands: the built-in do-nothing block, or one the application installed. */
  datatype UnknownHandler = DefaultNoOp | UnknownBlock(id: HandlerId)

  /** One handler invocation: a registered block called with no argument, or the unknown handler called with the command. */
  datatype Call = HandlerCall(id: HandlerId) | UnknownCall(handler: UnknownHandler, cmd: Byte)

  /**
   * The handler table. Keys are whatever integers were registered; the value
   * is the block given, or `None` when registration passed no block.
   */
  type Handlers = map<int, Option<HandlerId>>

  /** A block is registered for `cmd` (a key bound to no block does not count). */
  predicate IsRegistered(handlers: Handlers, cmd: int) {
    cmd in handlers && handlers[cmd].Some?
  }

  /**
   * The handler invocation that dispatching `cmd` makes: the block registered
   * for `cmd` when there is one, and otherwise the unknown handler, handed
   * exactly the dispatched command. Dispatch never fails.
   */
  function Dispatch(handlers: Handlers, unknown: UnknownHandler, cmd: Byte): (c: Call)
    ensures c.HandlerCall? <==> IsRegistered(handlers, cmd)
    ensures c.HandlerCall? ==> c.id == handlers[cmd].value
    ensures c.UnknownCall? ==> c.handler == unknown && c.cmd == cmd
  {
    if IsRegistered(handlers, cmd) then HandlerCall(handlers[cmd].value)
    else UnknownCall(unknown, cmd)
  }

  /**
   * Registering `block` for `key` decides dispatch of `key` alone: the last
   * registration wins, a registration without a block sends `key` to the
   * unknown handler, and every other command dispatches as before.
   */
  lemma RegistrationLastWins(handlers: Handlers, unknown: UnknownHandler, key: int, block: Option<HandlerId>, cmd: Byte)
    ensures Dispatch(handlers[key := block], unknown, cmd) ==
      if cmd != key then Dispatch(handlers, unknown, cmd)
      else if block.Some? then HandlerCall(block.value)
      else UnknownCall(unknown, cmd)
  {
  }

  /** With nothing registered, every command goes to the default unknown handler with its own number. */
  lemma DispatchDefault(cmd: Byte)
    ensures Dispatch(map[], DefaultNoOp, cmd) == UnknownCall(DefaultNoOp, cmd)
  {
  }
}
