/** Trap dispatch: each trap kind has an ordered, link-time list of handlers,
    and a trap is handed to the first of them. */
module Trap {
  import opened Common

  /** The warning `handle_trap!` logs, if any. */
  datatype Warning = NoWarning | MultipleHandlers | NoHandler

  /** What a dispatch does: the value it returns, the warning it logs and the
      position in the list of the one handler it calls (`None`: it calls none). */
  datatype Dispatch = Dispatch(handled: bool, warning: Warning, invoked: Option<nat>)

  /** `handle_trap!` over a handler list: two `next()` checks, then a call of
      the first handler with the trap's arguments. */
  function HandleTrap<A>(handlers: seq<A -> bool>, args: A): (d: Dispatch)
    ensures d.invoked.None? <==> |handlers| == 0
    ensures d.invoked.None? ==> !d.handled && d.warning == NoHandler
    ensures d.invoked.Some? ==> d.invoked.value == 0 && d.handled == handlers[0](args)
    ensures d.warning == MultipleHandlers <==> |handlers| >= 2
    ensures d.warning == NoWarning <==> |handlers| == 1
  {
    if |handlers| == 0 then Dispatch(false, NoHandler, None)
    else Dispatch(handlers[0](args), if |handlers| >= 2 then MultipleHandlers else NoWarning, Some(0))
  }

  /** Handlers registered after the first are never consulted: whatever they
      are, the trap is handled as the first handler decides. */
  lemma FirstHandlerDecides<A>(first: A -> bool, rest1: seq<A -> bool>, rest2: seq<A -> bool>, args: A)
    ensures HandleTrap([first] + rest1, args).handled == HandleTrap([first] + rest2, args).handled == first(args)
    ensures HandleTrap([first] + rest1, args).invoked == HandleTrap([first] + rest2, args).invoked == Some(0)
  {
  }

  /** `memory_addr::VirtAddr` */
  type VirtAddr = usize

  /** `page_table_entry::MappingFlags`, as its bit pattern; its meaning is not
      part of this model. */
  type MappingFlags = nat

  /** The arguments of a page-fault handler: the faulting address, the access
      flags and whether the fault came from user mode. */
  datatype PageFaultArgs = PageFaultArgs(vaddr: VirtAddr, flags: MappingFlags, isUser: bool)

  /** The two distributed slices `IRQ` and `PAGE_FAULT`. */
  datatype Registry = Registry(irq: seq<usize -> bool>, pageFault: seq<PageFaultArgs -> bool>)

  /** `handle_trap!(IRQ, irq_num)` */
  function HandleIrq(reg: Registry, irqNum: usize): (d: Dispatch)
    ensures reg.irq == [] ==> !d.handled && d.invoked.None?
    ensures reg.irq != [] ==> d.handled == reg.irq[0](irqNum) && d.invoked == Some(0)
  {
    HandleTrap(reg.irq, irqNum)
  }

  /** `handle_trap!(PAGE_FAULT, vaddr, flags, is_user)` */
  function HandlePageFault(reg: Registry, args: PageFaultArgs): (d: Dispatch)
    ensures reg.pageFault == [] ==> !d.handled && d.invoked.None?
    ensures reg.pageFault != [] ==> d.handled == reg.pageFault[0](args) && d.invoked == Some(0)
  {
    HandleTrap(reg.pageFault, args)
  }

  /** The two kinds keep separate lists: what is registered for one kind never
      changes how the other is dispatched. */
  lemma KindsSeparate(reg: Registry, irqs: seq<usize -> bool>, faults: seq<PageFaultArgs -> bool>,
                      irqNum: usize, args: PageFaultArgs)
    ensures HandleIrq(reg.(pageFault := faults), irqNum) == HandleIrq(reg, irqNum)
    ensures HandlePageFault(reg.(irq := irqs), args) == HandlePageFault(reg, args)
  {
  }
}
