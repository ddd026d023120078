/** The kernel-side probes. Each probe body runs atomically over shared maps, fills the single scratch
    stack and scratch event, and appends to the ring. `KernelState` and the functions on it say what each
    probe does; the methods of `ProbeMaps` do it in place and are proved against those functions. */
module Probes {
  import opened Words
  import opened Replay

  datatype Kind = Malloc | Calloc | Realloc

  datatype PendingInfo = PendingInfo(size: u64, stackId: i32)
  datatype StackPcs = StackPcs(depth: u32, pcs: KernelPcs)
  datatype AllocInfo = AllocInfo(size: u64, stackId: i64, timestamp: u64, pid: u32, tid: u32)

  /** What the stack helpers hand back: two tries at a stack id, and the unwound PCs with their length in
      bytes, negative on failure. */
  datatype StackCapture = StackCapture(firstId: i32, retryId: i32, bytes: i32, pcs: KernelPcs)

  function StackIdOf(c: StackCapture): i32 {
    if c.firstId < 0 then c.retryId else c.firstId
  }

  function StackOf(c: StackCapture): StackPcs {
    StackPcs(if c.bytes > 0 then c.bytes / 8 else 0, c.pcs)
  }

  function Pid(pidTgid: u64): u32 { pidTgid / TWO32 }
  function Tid(pidTgid: u64): u32 { pidTgid % TWO32 }

  /** What the kernel's helper hands out for thread `tid` of process `pid`. */
  function PidTgid(pid: u32, tid: u32): u64 {
    pid * TWO32 + tid
  }

  /** The probes take the two apart again. */
  lemma IdsOf(pid: u32, tid: u32)
    ensures Tid(PidTgid(pid, tid)) == tid && Pid(PidTgid(pid, tid)) == pid
  {
    DivUnique(PidTgid(pid, tid), TWO32, pid, tid);
  }

  /** One pair of pending maps, keyed by thread id. */
  datatype Pending = Pending(infos: map<u32, PendingInfo>, stacks: map<u32, StackPcs>)

  datatype KernelState = KernelState(
    mallocs: Pending, callocs: Pending, reallocs: Pending,
    active: map<u64, AllocInfo>, completed: map<u64, AllocInfo>, ring: seq<MemEvent>)
  {
    function Of(k: Kind): Pending {
      match k
      case Malloc => mallocs
      case Calloc => callocs
      case Realloc => reallocs
    }

    function With(k: Kind, p: Pending): KernelState {
      match k
      case Malloc => this.(mallocs := p)
      case Calloc => this.(callocs := p)
      case Realloc => this.(reallocs := p)
    }
  }

  const NO_PENDING: Pending := Pending(map[], map[])
  const INITIAL: KernelState := KernelState(NO_PENDING, NO_PENDING, NO_PENDING, map[], map[], [])

  function Min(x: int, y: int): int { if x < y then x else y }

  /** The depth and PCs an allocation-return event carries for a pending stack. */
  function EventDepth(s: StackPcs): (d: u32)
    ensures d <= KERNEL_SLOTS
  {
    Min(s.depth, KERNEL_SLOTS)
  }

  function EventPcs(s: StackPcs): (r: KernelPcs)
    ensures r[..EventDepth(s)] == s.pcs[..EventDepth(s)]
  {
    s.pcs[..EventDepth(s)] + Zeros(KERNEL_SLOTS - EventDepth(s))
  }

  function ReturnPayload(k: Kind, addr: u64, size: u64, pcs: KernelPcs): Payload {
    match k
    case Malloc => MallocRet(addr, size, pcs)
    case Calloc => CallocRet(addr, size, pcs)
    case Realloc => ReallocRet(addr, size, 0, pcs)
  }

  function ReturnEvent(k: Kind, pidTgid: u64, addr: u64, now: u64, info: PendingInfo, stack: StackPcs): MemEvent {
    MemEvent(Pid(pidTgid), Tid(pidTgid), now, info.stackId, EventDepth(stack),
             ReturnPayload(k, addr, info.size, EventPcs(stack)))
  }

  // ----- probes as functions on the kernel state -----

  /** Entry of an allocator call that asks for `size` bytes. */
  function EnterCall(s: KernelState, k: Kind, pidTgid: u64, size: u64, c: StackCapture): KernelState {
    var p := s.Of(k);
    var t := Tid(pidTgid);
    s.With(k, Pending(p.infos[t := PendingInfo(size, StackIdOf(c))], p.stacks[t := StackOf(c)]))
  }

  function ReallocEntryEvent(pidTgid: u64, ptr: u64, size: u64, now: u64): MemEvent {
    MemEvent(Pid(pidTgid), Tid(pidTgid), now, 0, 0, ReallocEntry(ptr, size))
  }

  /** The stack saved by a thread's entry probe, or an empty one. */
  function SavedStack(stacks: map<u32, StackPcs>, tid: u32): StackPcs {
    if tid in stacks then stacks[tid] else StackPcs(0, Zeros(KERNEL_SLOTS))
  }

  /** Return of an allocator call with result `addr`. */
  function LeaveCall(s: KernelState, k: Kind, pidTgid: u64, addr: u64, now: u64): KernelState {
    var p, t := s.Of(k), Tid(pidTgid);
    if addr == 0 || t !in p.infos then s
    else
      var info := p.infos[t];
      var stack := SavedStack(p.stacks, t);
      var s' := s.With(k, Pending(p.infos - {t}, p.stacks - {t}));
      s'.(active := s.active[addr := AllocInfo(info.size, info.stackId, now, Pid(pidTgid), t)],
          ring := s.ring + [ReturnEvent(k, pidTgid, addr, now, info, stack)])
  }

  function FreeEvent(pidTgid: u64, ptr: u64, now: u64, stackId: i64): MemEvent {
    MemEvent(Pid(pidTgid), Tid(pidTgid), now, stackId, 0, FreeEvt(ptr))
  }

  function EnterFree(s: KernelState, pidTgid: u64, ptr: u64, now: u64, stackId: i64): KernelState {
    if ptr == 0 then s
    else
      s.(active := s.active - {ptr},
         completed := if ptr in s.active then s.completed[ptr := s.active[ptr]] else s.completed,
         ring := s.ring + [FreeEvent(pidTgid, ptr, now, stackId)])
  }

  // ----- the probes themselves -----

  /** Copies the saved entries one by one, at most 32, into an event whose slots start out zero. */
  method CopyStack(s: StackPcs) returns (pcs: KernelPcs)
    ensures pcs == EventPcs(s)
  {
    pcs := Zeros(KERNEL_SLOTS);
    var depth := if s.depth > KERNEL_SLOTS then KERNEL_SLOTS else s.depth;
    var i := 0;
    while i < depth && i < KERNEL_SLOTS
      invariant 0 <= i <= depth
      invariant pcs[..i] == s.pcs[..i] && forall j :: i <= j < KERNEL_SLOTS ==> pcs[j] == 0
    {
      pcs := pcs[i := s.pcs[i]];
      i := i + 1;
    }
  }

  method StackForEvent(stacks: map<u32, StackPcs>, tid: u32) returns (depth: u32, pcs: KernelPcs)
    ensures depth == EventDepth(SavedStack(stacks, tid)) && pcs == EventPcs(SavedStack(stacks, tid))
  {
    depth, pcs := 0, Zeros(KERNEL_SLOTS);
    if tid in stacks && stacks[tid].depth > 0 {
      depth := stacks[tid].depth;
      if depth > KERNEL_SLOTS { depth := KERNEL_SLOTS; }
      pcs := CopyStack(stacks[tid]);
    }
  }

  class ProbeMaps {
    var pendingMallocs: map<u32, PendingInfo>
    var pendingCallocs: map<u32, PendingInfo>
    var pendingReallocs: map<u32, PendingInfo>
    var pendingStacksMalloc: map<u32, StackPcs>
    var pendingStacksCalloc: map<u32, StackPcs>
    var pendingStacksRealloc: map<u32, StackPcs>
    var activeAllocs: map<u64, AllocInfo>
    var completedAllocs: map<u64, AllocInfo>
    var tmpStack: StackPcs
    var tmpEvent: MemEvent
    var events: seq<MemEvent>

    ghost function State(): KernelState
      reads this
    {
      KernelState(
        Pending(pendingMallocs, pendingStacksMalloc),
        Pending(pendingCallocs, pendingStacksCalloc),
        Pending(pendingReallocs, pendingStacksRealloc),
        activeAllocs, completedAllocs, events)
    }

    constructor ()
      ensures State() == INITIAL
    {
      pendingMallocs, pendingCallocs, pendingReallocs := map[], map[], map[];
      pendingStacksMalloc, pendingStacksCalloc, pendingStacksRealloc := map[], map[], map[];
      activeAllocs, completedAllocs, events := map[], map[], [];
      tmpStack := StackPcs(0, Zeros(KERNEL_SLOTS));
      tmpEvent := MemEvent(0, 0, 0, 0, 0, Ignored);
    }

    /** `memset` the scratch stack, unwind into it and set its depth. */
    method CaptureStack(c: StackCapture)
      modifies this`tmpStack
      ensures tmpStack == StackOf(c)
    {
      tmpStack := StackPcs(0, Zeros(KERNEL_SLOTS));
      tmpStack := tmpStack.(pcs := c.pcs);
      if c.bytes > 0 {
        tmpStack := tmpStack.(depth := c.bytes / 8);
      } else {
        tmpStack := tmpStack.(depth := 0);
      }
    }

    method Emit()
      modifies this`events
      ensures events == old(events) + [tmpEvent]
    {
      events := events + [tmpEvent];
    }

    method UprobeMallocEntry(pidTgid: u64, size: u64, c: StackCapture)
      modifies this
      ensures State() == EnterCall(old(State()), Malloc, pidTgid, size, c)
    {
      var tid := Tid(pidTgid);
      var sid := c.firstId;
      if sid < 0 { sid := c.retryId; }
      pendingMallocs := pendingMallocs[tid := PendingInfo(size, sid)];
      CaptureStack(c);
      pendingStacksMalloc := pendingStacksMalloc[tid := tmpStack];
    }

    method UprobeMallocReturn(pidTgid: u64, ret: u64, now: u64)
      modifies this
      ensures State() == LeaveCall(old(State()), Malloc, pidTgid, ret, now)
    {
      var tid, addr := Tid(pidTgid), ret;
      if addr == 0 || tid !in pendingMallocs { return; }
      var pending := pendingMallocs[tid];
      pendingMallocs := pendingMallocs - {tid};
      activeAllocs := activeAllocs[addr := AllocInfo(pending.size, pending.stackId, now, Pid(pidTgid), tid)];
      var depth, pcs := StackForEvent(pendingStacksMalloc, tid);
      tmpEvent := MemEvent(Pid(pidTgid), tid, now, pending.stackId, depth, MallocRet(addr, pending.size, pcs));
      pendingStacksMalloc := pendingStacksMalloc - {tid};
      Emit();
    }

    method UprobeCallocEntry(pidTgid: u64, nmemb: u64, size: u64, c: StackCapture)
      modifies this
      ensures State() == EnterCall(old(State()), Calloc, pidTgid, Wrap64(nmemb * size), c)
    {
      var tid := Tid(pidTgid);
      var sid := c.firstId;
      if sid < 0 { sid := c.retryId; }
      pendingCallocs := pendingCallocs[tid := PendingInfo(Wrap64(nmemb * size), sid)];
      CaptureStack(c);
      pendingStacksCalloc := pendingStacksCalloc[tid := tmpStack];
    }

    method UprobeCallocReturn(pidTgid: u64, ret: u64, now: u64)
      modifies this
      ensures State() == LeaveCall(old(State()), Calloc, pidTgid, ret, now)
    {
      var tid, addr := Tid(pidTgid), ret;
      if addr == 0 || tid !in pendingCallocs { return; }
      var pending := pendingCallocs[tid];
      pendingCallocs := pendingCallocs - {tid};
      activeAllocs := activeAllocs[addr := AllocInfo(pending.size, pending.stackId, now, Pid(pidTgid), tid)];
      var depth, pcs := StackForEvent(pendingStacksCalloc, tid);
      tmpEvent := MemEvent(Pid(pidTgid), tid, now, pending.stackId, depth, CallocRet(addr, pending.size, pcs));
      pendingStacksCalloc := pendingStacksCalloc - {tid};
      Emit();
    }

    /** Unlike the other entries this one also emits an event, which the collector ignores. */
    method UprobeReallocEntry(pidTgid: u64, ptr: u64, size: u64, c: StackCapture, now: u64)
      modifies this
      ensures State() == var s := EnterCall(old(State()), Realloc, pidTgid, size, c);
                         s.(ring := s.ring + [ReallocEntryEvent(pidTgid, ptr, size, now)])
    {
      var tid := Tid(pidTgid);
      var sid := c.firstId;
      if sid < 0 { sid := c.retryId; }
      pendingReallocs := pendingReallocs[tid := PendingInfo(size, sid)];
      CaptureStack(c);
      pendingStacksRealloc := pendingStacksRealloc[tid := tmpStack];
      tmpEvent := MemEvent(Pid(pidTgid), tid, now, 0, 0, ReallocEntry(ptr, size));
      Emit();
    }

    method UprobeReallocReturn(pidTgid: u64, ret: u64, now: u64)
      modifies this
      ensures State() == LeaveCall(old(State()), Realloc, pidTgid, ret, now)
    {
      var tid, addr := Tid(pidTgid), ret;
      if addr == 0 || tid !in pendingReallocs { return; }
      var pending := pendingReallocs[tid];
      pendingReallocs := pendingReallocs - {tid};
      activeAllocs := activeAllocs[addr := AllocInfo(pending.size, pending.stackId, now, Pid(pidTgid), tid)];
      var depth, pcs := StackForEvent(pendingStacksRealloc, tid);
      tmpEvent := MemEvent(Pid(pidTgid), tid, now, pending.stackId, depth, ReallocRet(addr, pending.size, 0, pcs));
      pendingStacksRealloc := pendingStacksRealloc - {tid};
      Emit();
    }

    method UprobeFree(pidTgid: u64, ptr: u64, now: u64, stackId: i64)
      modifies this
      ensures State() == EnterFree(old(State()), pidTgid, ptr, now, stackId)
    {
      if ptr == 0 { return; }
      if ptr in activeAllocs {
        completedAllocs := completedAllocs[ptr := activeAllocs[ptr]];
        activeAllocs := activeAllocs - {ptr};
      }
      tmpEvent := MemEvent(Pid(pidTgid), Tid(pidTgid), now, stackId, 0, FreeEvt(ptr));
      Emit();
    }
  }
}
