/** The probe-to-collector protocol as a transition system. Threads take probe steps in any order,
    the ring is a queue, and a separate consumer takes events off it into its own table.

    Assumed throughout: a probe body is one atomic step, map updates succeed, no ring record is dropped,
    and the collector always finds memory. */
module Protocol {
  import opened Words
  import opened Replay
  import opened Probes

  /** One step of a run. For `calloc`, `size` is the product of the arguments mod 2^64; only the `realloc`
      entry looks at `ptr` and `now`. */
  datatype Step =
    | Enter(kind: Kind, pidTgid: u64, size: u64, capture: StackCapture, ptr: u64, now: u64)
    | Leave(kind: Kind, pidTgid: u64, ret: u64, now: u64)
    | Free(pidTgid: u64, ptr: u64, now: u64, stackId: i64)
    | Consume

  datatype System = System(kernel: KernelState, table: seq<AllocRecord>)

  predicate AllInBounds(evts: seq<MemEvent>) {
    forall e <- evts :: CopyInBounds(e)
  }

  /** What a step appends to the ring. */
  function Emits(s: KernelState, step: Step): (evts: seq<MemEvent>)
    ensures AllInBounds(evts)
  {
    match step
    case Enter(k, pidTgid, size, _, ptr, now) =>
      if k == Realloc then [ReallocEntryEvent(pidTgid, ptr, size, now)] else []
    case Leave(k, pidTgid, ret, now) =>
      var p, t := s.Of(k), Tid(pidTgid);
      if ret == 0 || t !in p.infos then []
      else [ReturnEvent(k, pidTgid, ret, now, p.infos[t], SavedStack(p.stacks, t))]
    case Free(pidTgid, ptr, now, stackId) =>
      if ptr == 0 then [] else [FreeEvent(pidTgid, ptr, now, stackId)]
    case Consume => []
  }

  /** A probe's effect on the kernel state. */
  function KernelStep(s: KernelState, step: Step): (s': KernelState)
    ensures s'.ring == s.ring + Emits(s, step)
  {
    match step
    case Enter(k, pidTgid, size, c, ptr, now) =>
      var s' := EnterCall(s, k, pidTgid, size, c);
      if k == Realloc then s'.(ring := s'.ring + [ReallocEntryEvent(pidTgid, ptr, size, now)]) else s'
    case Leave(k, pidTgid, ret, now) => LeaveCall(s, k, pidTgid, ret, now)
    case Free(pidTgid, ptr, now, stackId) => EnterFree(s, pidTgid, ptr, now, stackId)
    case Consume => s
  }

  function Next(target: u32, sys: System, step: Step): (sys': System)
    requires AllInBounds(sys.kernel.ring)
    ensures AllInBounds(sys'.kernel.ring)
  {
    if step.Consume? then
      if sys.kernel.ring == [] then sys
      else
        System(sys.kernel.(ring := sys.kernel.ring[1..]), Apply(target, sys.table, sys.kernel.ring[0]))
    else sys.(kernel := KernelStep(sys.kernel, step))
  }

  function Run(target: u32, steps: seq<Step>): (sys: System)
    ensures AllInBounds(sys.kernel.ring)
  {
    if steps == [] then System(INITIAL, [])
    else Next(target, Run(target, steps[..|steps| - 1]), steps[|steps| - 1])
  }

  /** The kernel side alone, with a ring nobody consumes: its ring is everything ever emitted. */
  function KernelRun(steps: seq<Step>): (s: KernelState)
    ensures AllInBounds(s.ring)
  {
    if steps == [] then INITIAL
    else KernelStep(KernelRun(steps[..|steps| - 1]), steps[|steps| - 1])
  }

  /** The table once the consumer has caught up. */
  function Drained(target: u32, sys: System): seq<AllocRecord>
    requires AllInBounds(sys.kernel.ring)
  {
    ReplayAll(target, sys.table, sys.kernel.ring)
  }

  /** Every event on the ring or already taken off it keeps the collector's copy inside the payload. */
  lemma EmittedDepthsFit(steps: seq<Step>)
    ensures forall e <- KernelRun(steps).ring :: IsAllocation(e.payload) ==>
      e.stackDepth <= KERNEL_SLOTS == |e.payload.pcs|
  {
  }

  // ----- the ring is a queue -----

  /** A probe never looks at the ring: it only appends to it. */
  lemma ProbesIgnoreTheRing(s: KernelState, r: seq<MemEvent>, step: Step)
    ensures KernelStep(s.(ring := r), step) == KernelStep(s, step).(ring := r + Emits(s, step))
  {
    match step
    case Enter(k, pidTgid, size, c, ptr, now) => EnterIgnoresTheRing(s, r, k, pidTgid, size, c);
    case Leave(k, pidTgid, ret, now) => LeaveIgnoresTheRing(s, r, k, pidTgid, ret, now);
    case Free(_, _, _, _) =>
    case Consume =>
  }

  lemma EnterIgnoresTheRing(s: KernelState, r: seq<MemEvent>, k: Kind, pidTgid: u64, size: u64, c: StackCapture)
    ensures EnterCall(s.(ring := r), k, pidTgid, size, c) == EnterCall(s, k, pidTgid, size, c).(ring := r)
  {
  }

  lemma LeaveIgnoresTheRing(s: KernelState, r: seq<MemEvent>, k: Kind, pidTgid: u64, ret: u64, now: u64)
    ensures LeaveCall(s.(ring := r), k, pidTgid, ret, now) ==
      LeaveCall(s, k, pidTgid, ret, now).(ring := r + Emits(s, Leave(k, pidTgid, ret, now)))
  {
  }

  /** Nothing is lost, duplicated or reordered: what was emitted is what the consumer replayed followed by
      what is still queued. The consumer does not influence the rest of the kernel state. */
  lemma {:induction false} RingIsAQueue(target: u32, steps: seq<Step>) returns (consumed: seq<MemEvent>)
    ensures AllInBounds(consumed)
    ensures KernelRun(steps).ring == consumed + Run(target, steps).kernel.ring
    ensures Run(target, steps).table == ReplayAll(target, [], consumed)
    ensures Run(target, steps).kernel == KernelRun(steps).(ring := Run(target, steps).kernel.ring)
  {
    if steps == [] {
      return [];
    }
    var init, step := steps[..|steps| - 1], steps[|steps| - 1];
    consumed := RingIsAQueue(target, init);
    consumed := QueueStep(target, KernelRun(init), Run(target, init), consumed, step);
  }

  lemma QueueStep(target: u32, s: KernelState, sys: System, consumed: seq<MemEvent>, step: Step)
    returns (consumed': seq<MemEvent>)
    requires AllInBounds(s.ring) && AllInBounds(sys.kernel.ring) && AllInBounds(consumed)
    requires s.ring == consumed + sys.kernel.ring && sys.table == ReplayAll(target, [], consumed)
    requires sys.kernel == s.(ring := sys.kernel.ring)
    ensures AllInBounds(consumed')
    ensures var sys' := Next(target, sys, step);
      && KernelStep(s, step).ring == consumed' + sys'.kernel.ring && sys'.table == ReplayAll(target, [], consumed')
      && sys'.kernel == KernelStep(s, step).(ring := sys'.kernel.ring)
  {
    consumed' := consumed;
    if step.Consume? {
      if sys.kernel.ring != [] {
        var e := sys.kernel.ring[0];
        consumed' := consumed + [e];
        assert consumed + sys.kernel.ring == consumed' + sys.kernel.ring[1..];
        assert consumed'[..|consumed'| - 1] == consumed;
      }
    } else {
      ProbesIgnoreTheRing(s, sys.kernel.ring, step);
      assert consumed + sys.kernel.ring + Emits(s, step) == consumed + (sys.kernel.ring + Emits(s, step));
    }
  }

  /** What the drained table holds does not depend on when the consumer ran. */
  lemma DrainedIsReplay(target: u32, steps: seq<Step>)
    ensures Drained(target, Run(target, steps)) == ReplayAll(target, [], KernelRun(steps).ring)
  {
    var consumed := RingIsAQueue(target, steps);
    ReplaySplit(target, [], consumed, Run(target, steps).kernel.ring);
  }

  /** The process filter: with target 0 the drained table is the effect of everything emitted, with another target
      the effect of exactly what that process emitted, and then it holds that process's records only. */
  lemma DrainedOfProcess(target: u32, steps: seq<Step>)
    ensures var ring, drained := KernelRun(steps).ring, Drained(target, Run(target, steps));
      if target == 0 then drained == EffectOfAll([], ring)
      else drained == EffectOfAll([], OfProcess(ring, target)) && forall r <- drained :: r.pid == target
  {
    DrainedIsReplay(target, steps);
    if target == 0 {
      UnfilteredReplay([], KernelRun(steps).ring);
    } else {
      FilteredReplay(target, [], KernelRun(steps).ring);
      RecordsOfProcess([], OfProcess(KernelRun(steps).ring, target), target);
    }
  }

  // ----- active allocations as a function of the emitted events -----

  function InfoOf(e: MemEvent): AllocInfo
    requires IsAllocation(e.payload)
  {
    AllocInfo(e.payload.size, e.stackId, e.timestamp, e.pid, e.tid)
  }

  function ActiveStep(active: map<u64, AllocInfo>, e: MemEvent): map<u64, AllocInfo> {
    if IsAllocation(e.payload) then active[e.payload.addr := InfoOf(e)]
    else if e.payload.FreeEvt? then active - {e.payload.addr}
    else active
  }

  function ActiveAfter(evts: seq<MemEvent>): map<u64, AllocInfo> {
    if evts == [] then map[] else ActiveStep(ActiveAfter(evts[..|evts| - 1]), evts[|evts| - 1])
  }

  /** A free moves the address from active to completed, with its data. */
  function CompletedStep(
      active: map<u64, AllocInfo>, completed: map<u64, AllocInfo>, e: MemEvent): map<u64, AllocInfo>
  {
    if e.payload.FreeEvt? && e.payload.addr in active then completed[e.payload.addr := active[e.payload.addr]]
    else completed
  }

  function CompletedAfter(evts: seq<MemEvent>): map<u64, AllocInfo> {
    if evts == [] then map[]
    else
      var init := evts[..|evts| - 1];
      CompletedStep(ActiveAfter(init), CompletedAfter(init), evts[|evts| - 1])
  }

  lemma KernelStepMaps(s: KernelState, step: Step)
    ensures var s', evts := KernelStep(s, step), Emits(s, step);
      && |evts| <= 1
      && s'.active == (if evts == [] then s.active else ActiveStep(s.active, evts[0]))
      && s'.completed == (if evts == [] then s.completed else CompletedStep(s.active, s.completed, evts[0]))
  {
  }

  /** The two maps and the ring never drift apart: the maps are what the emitted events say they are. */
  lemma {:induction false} MapsAreDeterminedByEvents(steps: seq<Step>)
    ensures KernelRun(steps).active == ActiveAfter(KernelRun(steps).ring)
    ensures KernelRun(steps).completed == CompletedAfter(KernelRun(steps).ring)
  {
    if steps != [] {
      var init, step := steps[..|steps| - 1], steps[|steps| - 1];
      MapsAreDeterminedByEvents(init);
      var s := KernelRun(init);
      KernelStepMaps(s, step);
      var evts := Emits(s, step);
      if evts == [] {
        assert s.ring + evts == s.ring;
      } else {
        assert (s.ring + evts)[..|s.ring + evts| - 1] == s.ring;
      }
    }
  }

  /** The addresses handed out in a history. */
  function Allocated(evts: seq<MemEvent>): set<u64> {
    if evts == [] then {}
    else
      var init, e := Allocated(evts[..|evts| - 1]), evts[|evts| - 1];
      if IsAllocation(e.payload) then init + {e.payload.addr} else init
  }

  /** Every address that was ever handed out is active or completed, and no other address is. */
  lemma {:induction false} NothingForgotten(evts: seq<MemEvent>)
    ensures ActiveAfter(evts).Keys + CompletedAfter(evts).Keys == Allocated(evts)
  {
    if evts != [] {
      NothingForgotten(evts[..|evts| - 1]);
    }
  }

  /** The drained live records at an address and the active map, both read off the emitted events. */
  lemma DrainedView(target: u32, steps: seq<Step>, a: u64)
    ensures LiveRecords(Drained(target, Run(target, steps)), a) == Outstanding(target, KernelRun(steps).ring, a)
    ensures Run(target, steps).kernel.active == ActiveAfter(KernelRun(steps).ring)
  {
    DrainedIsReplay(target, steps);
    LiveRecordsAreAStack(target, KernelRun(steps).ring, a);
    var _ := RingIsAQueue(target, steps);
    MapsAreDeterminedByEvents(steps);
  }

  // ----- replay agreement -----

  predicate Matches(r: AllocRecord, info: AllocInfo) {
    && r.size == info.size && r.pid == info.pid && r.tid == info.tid
    && r.timestampAlloc == info.timestamp && r.stackId == info.stackId
  }

  /** The newest outstanding record at an active address carries the active data. */
  lemma {:induction false} NewestMatchesActive(target: u32, evts: seq<MemEvent>, a: u64)
    requires AllInBounds(evts) && a in ActiveAfter(evts) && Accepts(target, ActiveAfter(evts)[a].pid)
    ensures var stack := Outstanding(target, evts, a);
      stack != [] && Matches(stack[|stack| - 1], ActiveAfter(evts)[a])
  {
    var init, e := evts[..|evts| - 1], evts[|evts| - 1];
    if !(IsAllocation(e.payload) && e.payload.addr == a) {
      NewestMatchesActive(target, init, a);
    }
  }

  /** The newest live record at the address carries the data. */
  ghost predicate AgreesAt(recs: seq<AllocRecord>, a: u64, info: AllocInfo) {
    NewestLive(recs, a) >= 0 && Matches(recs[NewestLive(recs, a)], info)
  }

  ghost predicate Agrees(target: u32, recs: seq<AllocRecord>, active: map<u64, AllocInfo>) {
    forall a <- active :: Accepts(target, active[a].pid) ==> AgreesAt(recs, a, active[a])
  }

  lemma TopIsNewest(recs: seq<AllocRecord>, stack: seq<AllocRecord>, a: u64, info: AllocInfo)
    requires stack == LiveRecords(recs, a) && stack != [] && Matches(stack[|stack| - 1], info)
    ensures AgreesAt(recs, a, info)
  {
  }

  /** At every point of every run: once drained, each address in `active_allocs` (of a process listened to)
      has a newest live record, and it carries the same size, pid, tid, timestamp and stack id. */
  lemma ReplayAgreement(target: u32, steps: seq<Step>)
    ensures var sys := Run(target, steps); Agrees(target, Drained(target, sys), sys.kernel.active)
  {
    var sys, ring := Run(target, steps), KernelRun(steps).ring;
    var drained := Drained(target, sys);
    forall a | a in sys.kernel.active && Accepts(target, sys.kernel.active[a].pid)
      ensures AgreesAt(drained, a, sys.kernel.active[a])
    {
      DrainedView(target, steps, a);
      NewestMatchesActive(target, ring, a);
      TopIsNewest(drained, Outstanding(target, ring, a), a, sys.kernel.active[a]);
    }
  }

  // ----- exact simulation -----

  /** The drained live addresses are exactly the active ones. */
  ghost predicate InSync(steps: seq<Step>) {
    var sys := Run(0, steps);
    forall a: u64 :: a in sys.kernel.active <==> LiveRecords(Drained(0, sys), a) != []
  }

  /** A `free` finds at most one live record at its address. */
  ghost predicate FreeIsUnambiguous(steps: seq<Step>, n: nat)
    requires n < |steps|
  {
    steps[n].Free? && steps[n].ptr != 0 ==> |LiveRecords(Drained(0, Run(0, steps[..n])), steps[n].ptr)| <= 1
  }

  ghost predicate EventsInSync(evts: seq<MemEvent>)
    requires AllInBounds(evts)
  {
    forall a: u64 :: a in ActiveAfter(evts) <==> Outstanding(0, evts, a) != []
  }

  lemma InSyncByEvents(steps: seq<Step>)
    ensures InSync(steps) <==> EventsInSync(KernelRun(steps).ring)
  {
    forall a: u64 ensures Run(0, steps).kernel.active == ActiveAfter(KernelRun(steps).ring)
                  ensures LiveRecords(Drained(0, Run(0, steps)), a) == Outstanding(0, KernelRun(steps).ring, a)
    {
      DrainedView(0, steps, a);
    }
  }

  /** One more event keeps the two in step unless it frees an address with several outstanding records. */
  lemma SyncOneEvent(evts: seq<MemEvent>, e: MemEvent)
    requires AllInBounds(evts) && CopyInBounds(e)
    ensures AllInBounds(evts + [e])
    ensures EventsInSync(evts) && (e.payload.FreeEvt? ==> |Outstanding(0, evts, e.payload.addr)| <= 1) ==>
      EventsInSync(evts + [e])
    ensures e.payload.FreeEvt? && |Outstanding(0, evts, e.payload.addr)| > 1 ==> !EventsInSync(evts + [e])
  {
    var evts' := evts + [e];
    assert evts'[..|evts'| - 1] == evts;
    assert forall a :: Outstanding(0, evts', a) == StackStep(0, Outstanding(0, evts, a), e, a);
    assert ActiveAfter(evts') == ActiveStep(ActiveAfter(evts), e);
  }

  /** The events a step adds to the history, and which kind of step adds what. */
  lemma HistoryStep(steps: seq<Step>, n: nat) returns (ring: seq<MemEvent>, evts: seq<MemEvent>)
    requires n < |steps|
    ensures ring == KernelRun(steps[..n]).ring && AllInBounds(ring) && AllInBounds(evts) && |evts| <= 1
    ensures KernelRun(steps[..n + 1]).ring == ring + evts && evts == Emits(KernelRun(steps[..n]), steps[n])
    ensures steps[n].Free? && steps[n].ptr != 0 ==> evts != []
    ensures evts != [] && IsAllocation(evts[0].payload) ==> steps[n].Leave? && steps[n].ret == evts[0].payload.addr
    ensures evts != [] && evts[0].payload.FreeEvt? <==> steps[n].Free? && steps[n].ptr != 0
    ensures evts != [] && evts[0].payload.FreeEvt? ==> evts[0].payload.addr == steps[n].ptr
  {
    assert steps[..n + 1][..n] == steps[..n];
    ring, evts := KernelRun(steps[..n]).ring, Emits(KernelRun(steps[..n]), steps[n]);
  }

  lemma SyncStep(steps: seq<Step>, n: nat)
    requires n < |steps|
    ensures InSync(steps[..n]) && FreeIsUnambiguous(steps, n) ==> InSync(steps[..n + 1])
    ensures !FreeIsUnambiguous(steps, n) ==> !InSync(steps[..n + 1])
  {
    InSyncByEvents(steps[..n]);
    InSyncByEvents(steps[..n + 1]);
    var ring, evts := HistoryStep(steps, n);
    if evts == [] {
      assert ring + evts == ring;
    } else {
      SyncOneEvent(ring, evts[0]);
      assert evts == [evts[0]];
      if steps[n].Free? {
        DrainedView(0, steps[..n], steps[n].ptr);
      }
    }
  }

  /** If losing `q` at a point is what breaks `p` right after it, `p` holds throughout exactly when `q` does. */
  lemma {:induction false} ThroughoutIff(p: int -> bool, q: int -> bool, n: nat)
    requires p(0)
    requires forall k :: 0 <= k < n ==> (p(k) && q(k) ==> p(k + 1)) && (!q(k) ==> !p(k + 1))
    ensures (forall k :: 0 <= k <= n ==> p(k)) <==> (forall k :: 0 <= k < n ==> q(k))
  {
    if n > 0 {
      ThroughoutIff(p, q, n - 1);
      assert (p(n - 1) && q(n - 1) ==> p(n)) && (!q(n - 1) ==> !p(n - 1 + 1));
    }
  }

  /** The live set tracks `active_allocs` throughout a run exactly when no `free` in it meets two or more
      live records at its address. */
  lemma SyncIff(steps: seq<Step>)
    ensures (forall n :: 0 <= n <= |steps| ==> InSync(steps[..n])) <==>
      (forall n :: 0 <= n < |steps| ==> FreeIsUnambiguous(steps, n))
  {
    var p := (k: int) => 0 <= k <= |steps| && InSync(steps[..k]);
    var q := (k: int) => 0 <= k < |steps| && FreeIsUnambiguous(steps, k);
    InSyncByEvents(steps[..0]);
    assert KernelRun(steps[..0]).ring == [];
    assert p(0);
    forall k | 0 <= k < |steps| ensures (p(k) && q(k) ==> p(k + 1)) && (!q(k) ==> !p(k + 1)) {
      SyncStep(steps, k);
    }
    ThroughoutIff(p, q, |steps|);
    assert forall k :: 0 <= k <= |steps| ==> (p(k) <==> InSync(steps[..k]));
    assert forall k :: 0 <= k < |steps| ==> (q(k) <==> FreeIsUnambiguous(steps, k));
  }

  /** No return that emits an event yields an address that is still active. */
  ghost predicate Disciplined(steps: seq<Step>) {
    forall n: nat :: n < |steps| && steps[n].Leave? && Emits(KernelRun(steps[..n]), steps[n]) != [] ==>
      steps[n].ret !in KernelRun(steps[..n]).active
  }

  /** The same on the emitted events. */
  ghost predicate EventsDisciplined(evts: seq<MemEvent>) {
    forall n: nat :: n < |evts| && IsAllocation(evts[n].payload) ==> evts[n].payload.addr !in ActiveAfter(evts[..n])
  }

  lemma {:induction false} DisciplineByEvents(steps: seq<Step>, n: nat)
    requires n <= |steps| && Disciplined(steps)
    ensures EventsDisciplined(KernelRun(steps[..n]).ring)
  {
    if n > 0 {
      DisciplineByEvents(steps, n - 1);
      var ring, evts := HistoryStep(steps, n - 1);
      MapsAreDeterminedByEvents(steps[..n - 1]);
      DisciplineOneMore(ring, evts);
    }
  }

  lemma DisciplineOneMore(ring: seq<MemEvent>, evts: seq<MemEvent>)
    requires EventsDisciplined(ring) && |evts| <= 1
    requires evts != [] && IsAllocation(evts[0].payload) ==> evts[0].payload.addr !in ActiveAfter(ring)
    ensures EventsDisciplined(ring + evts)
  {
    var ring' := ring + evts;
    forall n: nat | n < |ring'| && IsAllocation(ring'[n].payload)
      ensures ring'[n].payload.addr !in ActiveAfter(ring'[..n])
    {
      if n < |ring| {
        assert ring'[..n] == ring[..n];
      } else {
        assert ring'[..n] == ring;
      }
    }
  }

  lemma {:induction false} AtMostOneOutstanding(evts: seq<MemEvent>, a: u64)
    requires AllInBounds(evts) && EventsDisciplined(evts)
    ensures |Outstanding(0, evts, a)| == if a in ActiveAfter(evts) then 1 else 0
  {
    if evts != [] {
      var init, n := evts[..|evts| - 1], |evts| - 1;
      assert forall n: nat :: n < |init| ==> init[..n] == evts[..n];
      AtMostOneOutstanding(init, a);
      assert evts[..n] == init;
    }
  }

  /** Under that discipline the drained table simulates `active_allocs` exactly: one live record, carrying
      the same data, at each active address, and none elsewhere. */
  lemma DisciplinedSimulation(steps: seq<Step>, a: u64)
    requires Disciplined(steps)
    ensures var sys := Run(0, steps);
      var live := LiveRecords(Drained(0, sys), a);
      if a in sys.kernel.active then |live| == 1 && Matches(live[0], sys.kernel.active[a]) else live == []
  {
    DrainedView(0, steps, a);
    DisciplineByEvents(steps, |steps|);
    assert steps[..|steps|] == steps;
    EventsSimulate(KernelRun(steps).ring, a);
  }

  lemma EventsSimulate(evts: seq<MemEvent>, a: u64)
    requires AllInBounds(evts) && EventsDisciplined(evts)
    ensures var live, active := Outstanding(0, evts, a), ActiveAfter(evts);
      if a in active then |live| == 1 && Matches(live[0], active[a]) else live == []
  {
    AtMostOneOutstanding(evts, a);
    if a in ActiveAfter(evts) {
      NewestMatchesActive(0, evts, a);
    }
  }

  /** Discipline is needed: `malloc`, an in-place `realloc`, one `free`. The address is no longer active but
      the record of the `malloc` is still live. */
  lemma InPlaceReallocLeavesALiveRecord(p: u64, a: u64, c: StackCapture)
    requires a != 0
    ensures var steps := InPlaceRealloc(p, a, c);
      && a !in Run(0, steps).kernel.active
      && |LiveRecords(Drained(0, Run(0, steps)), a)| == 1
      && LiveRecords(Drained(0, Run(0, steps)), a)[0].size == 16
  {
    var e1, e2, e3, e4 := InPlaceReallocEvents(p, a, c);
    OutstandingOfFour(e1, e2, e3, e4, a);
    DrainedView(0, InPlaceRealloc(p, a, c), a);
  }

  /** Before the `free` both records are live, the 16 bytes of the `malloc` and the 32 bytes of the `realloc`,
      while the kernel knows of the 32 bytes only. */
  lemma InPlaceReallocDoubles(p: u64, a: u64, c: StackCapture)
    requires a != 0
    ensures var sys := Run(0, InPlaceRealloc(p, a, c)[..4]);
      && a in sys.kernel.active && sys.kernel.active[a].size == 32
      && |Drained(0, sys)| == 2 && LiveAt(Drained(0, sys)[0], a) && LiveAt(Drained(0, sys)[1], a)
      && Drained(0, sys)[0].size == 16 && Drained(0, sys)[1].size == 32
  {
    var e1, e2, e3, e4 := InPlaceReallocEvents(p, a, c);
    ReplayOfThree(e1, e2, e3);
    DrainedView(0, InPlaceRealloc(p, a, c)[..4], a);
    DrainedIsReplay(0, InPlaceRealloc(p, a, c)[..4]);
  }

  lemma ReplayOfThree(e1: MemEvent, e2: MemEvent, e3: MemEvent)
    requires AllInBounds([e1, e2, e3])
    requires IsAllocation(e1.payload) && e2.payload.ReallocEntry? && IsAllocation(e3.payload)
    ensures CopyInBounds(e1) && CopyInBounds(e3) && ReplayAll(0, [], [e1, e2, e3]) == [RecordOf(e1), RecordOf(e3)]
    ensures e3.payload.addr in ActiveAfter([e1, e2, e3]) && ActiveAfter([e1, e2, e3])[e3.payload.addr] == InfoOf(e3)
  {
    var h1, h2, h3 := [e1], [e1, e2], [e1, e2, e3];
    assert e1 in h3 && e2 in h3 && e3 in h3;
    assert h3 == h2 + [e3] && h2 == h1 + [e2] && h1 == [] + [e1];
    ReplayOneMore(0, [], [], e1);
    ReplayOneMore(0, [], h1, e2);
    ReplayOneMore(0, [], h2, e3);
    OneMoreEvent(h2, e3, e3.payload.addr);
  }

  /** What the run emits. */
  lemma InPlaceReallocEvents(p: u64, a: u64, c: StackCapture)
    returns (e1: MemEvent, e2: MemEvent, e3: MemEvent, e4: MemEvent)
    requires a != 0
    ensures KernelRun(InPlaceRealloc(p, a, c)).ring == [e1, e2, e3, e4]
    ensures KernelRun(InPlaceRealloc(p, a, c)[..4]).ring == [e1, e2, e3]
    ensures IsAllocation(e1.payload) && e1.payload.addr == a && e1.payload.size == 16 && e2.payload.ReallocEntry?
    ensures IsAllocation(e3.payload) && e3.payload.addr == a && e3.payload.size == 32 && e4.payload == FreeEvt(a)
  {
    var i1, i2 := PendingInfo(16, StackIdOf(c)), PendingInfo(32, StackIdOf(c));
    var s1 := KernelStep(INITIAL, InPlaceRealloc(p, a, c)[0]);
    var s2 := KernelStep(s1, InPlaceRealloc(p, a, c)[1]);
    var s3 := KernelStep(s2, InPlaceRealloc(p, a, c)[2]);
    var s4 := KernelStep(s3, InPlaceRealloc(p, a, c)[3]);
    var s5 := KernelStep(s4, InPlaceRealloc(p, a, c)[4]);
    e1 := ReturnEvent(Malloc, p, a, 1, i1, StackOf(c));
    e2 := ReallocEntryEvent(p, a, 32, 2);
    e3 := ReturnEvent(Realloc, p, a, 3, i2, StackOf(c));
    e4 := FreeEvent(p, a, 4, 0);
    KernelRunFive(InPlaceRealloc(p, a, c), s1, s2, s3, s4, s5);
    assert s2.ring == [e1] && s2.active.Keys == {a};
    assert s3.ring == [e1, e2] && s3.reallocs.infos[Tid(p)] == i2;
    assert s4.ring == [e1, e2, e3];
    assert s5.ring == [e1, e2, e3, e4];
  }

  function InPlaceRealloc(p: u64, a: u64, c: StackCapture): seq<Step> {
    [Enter(Malloc, p, 16, c, 0, 0), Leave(Malloc, p, a, 1), Enter(Realloc, p, 32, c, a, 2), Leave(Realloc, p, a, 3),
     Free(p, a, 4, 0)]
  }

  lemma KernelRunFive(
      steps: seq<Step>, s1: KernelState, s2: KernelState, s3: KernelState, s4: KernelState, s5: KernelState)
    requires |steps| == 5
    requires s1 == KernelStep(INITIAL, steps[0]) && s2 == KernelStep(s1, steps[1]) && s3 == KernelStep(s2, steps[2])
    requires s4 == KernelStep(s3, steps[3]) && s5 == KernelStep(s4, steps[4])
    ensures KernelRun(steps[..4]) == s4 && KernelRun(steps) == s5
  {
    assert steps[..4][..3] == steps[..3] && steps[..3][..2] == steps[..2];
    assert steps[..2][..1] == steps[..1] && steps[..1][..0] == [];
    assert KernelRun(steps[..1]) == s1;
    assert KernelRun(steps[..2]) == s2;
    assert KernelRun(steps[..3]) == s3;
    assert KernelRun(steps[..4]) == s4;
  }

  lemma OutstandingOfThree(e1: MemEvent, e2: MemEvent, e3: MemEvent, a: u64)
    requires AllInBounds([e1, e2, e3])
    requires IsAllocation(e1.payload) && e1.payload.addr == a && e2.payload.ReallocEntry?
    requires IsAllocation(e3.payload) && e3.payload.addr == a
    ensures CopyInBounds(e1) && CopyInBounds(e3) && Outstanding(0, [e1, e2, e3], a) == [RecordOf(e1), RecordOf(e3)]
  {
    var h1, h2, h3 := [e1], [e1, e2], [e1, e2, e3];
    assert e1 in h3 && e2 in h3 && e3 in h3;
    assert h3 == h2 + [e3] && h2 == h1 + [e2] && h1 == [] + [e1];
    OneMoreEvent([], e1, a);
    OneMoreEvent(h1, e2, a);
    OneMoreEvent(h2, e3, a);
  }

  lemma OutstandingOfFour(e1: MemEvent, e2: MemEvent, e3: MemEvent, e4: MemEvent, a: u64)
    requires AllInBounds([e1, e2, e3, e4])
    requires IsAllocation(e1.payload) && e1.payload.addr == a && e2.payload.ReallocEntry?
    requires IsAllocation(e3.payload) && e3.payload.addr == a && e4.payload == FreeEvt(a)
    ensures CopyInBounds(e1) && Outstanding(0, [e1, e2, e3, e4], a) == [RecordOf(e1)]
    ensures a !in ActiveAfter([e1, e2, e3, e4])
  {
    var h3, h4 := [e1, e2, e3], [e1, e2, e3, e4];
    assert h4 == h3 + [e4];
    assert e1 in h4 && e2 in h4 && e3 in h4 && e4 in h4;
    OutstandingOfThree(e1, e2, e3, a);
    OneMoreEvent(h3, e4, a);
  }

  lemma OneMoreEvent(evts: seq<MemEvent>, e: MemEvent, a: u64)
    requires AllInBounds(evts) && CopyInBounds(e)
    ensures AllInBounds(evts + [e])
    ensures Outstanding(0, evts + [e], a) == StackStep(0, Outstanding(0, evts, a), e, a)
    ensures ActiveAfter(evts + [e]) == ActiveStep(ActiveAfter(evts), e)
  {
  }

  // ----- pairing of entries and returns -----

  predicate EntersCall(step: Step, k: Kind, t: u32) {
    step.Enter? && step.kind == k && Tid(step.pidTgid) == t
  }

  predicate CompletesCall(step: Step, k: Kind, t: u32) {
    step.Leave? && step.kind == k && Tid(step.pidTgid) == t && step.ret != 0
  }

  /** The latest entry of kind `k` by thread `t`, if no non-null return of that kind came after it; else -1. */
  function OpenEntry(steps: seq<Step>, k: Kind, t: u32): (j: int)
    ensures -1 <= j < |steps|
    ensures j >= 0 ==> EntersCall(steps[j], k, t)
    ensures forall m :: 0 <= j < m < |steps| ==> !EntersCall(steps[m], k, t) && !CompletesCall(steps[m], k, t)
    ensures forall i :: j < 0 <= i < |steps| && EntersCall(steps[i], k, t) ==>
      exists m :: i < m < |steps| && CompletesCall(steps[m], k, t)
  {
    if steps == [] then -1
    else
      var last := steps[|steps| - 1];
      if EntersCall(last, k, t) then |steps| - 1
      else if CompletesCall(last, k, t) then -1
      else OpenEntry(steps[..|steps| - 1], k, t)
  }

  predicate SameAt(p: Pending, p': Pending, t: u32) {
    && (t in p.infos <==> t in p'.infos) && (t in p.stacks <==> t in p'.stacks)
    && (t in p.infos ==> p.infos[t] == p'.infos[t]) && (t in p.stacks ==> p.stacks[t] == p'.stacks[t])
  }

  /** What a step does to one thread's pending entries of one kind. */
  lemma PendingStep(s: KernelState, step: Step, k: Kind, t: u32)
    ensures var p, p' := s.Of(k), KernelStep(s, step).Of(k);
      if EntersCall(step, k, t) then
        && t in p'.infos && p'.infos[t] == PendingInfo(step.size, StackIdOf(step.capture))
        && t in p'.stacks && p'.stacks[t] == StackOf(step.capture)
      else if CompletesCall(step, k, t) && t in p.infos then t !in p'.infos && t !in p'.stacks
      else SameAt(p, p', t)
  {
    match step
    case Enter(k', pidTgid, size, c, _, _) => EnterPending(s, k', pidTgid, size, c, k, t);
    case Leave(k', pidTgid, ret, now) => LeavePending(s, k', pidTgid, ret, now, k, t);
    case Free(_, _, _, _) =>
    case Consume =>
  }

  lemma EnterPending(s: KernelState, k': Kind, pidTgid: u64, size: u64, c: StackCapture, k: Kind, t: u32)
    ensures var p, p' := s.Of(k), EnterCall(s, k', pidTgid, size, c).Of(k);
      if k' == k && Tid(pidTgid) == t then
        && t in p'.infos && p'.infos[t] == PendingInfo(size, StackIdOf(c))
        && t in p'.stacks && p'.stacks[t] == StackOf(c)
      else SameAt(p, p', t)
  {
  }

  lemma LeavePending(s: KernelState, k': Kind, pidTgid: u64, ret: u64, now: u64, k: Kind, t: u32)
    ensures var p, p' := s.Of(k), LeaveCall(s, k', pidTgid, ret, now).Of(k);
      if k' == k && Tid(pidTgid) == t && ret != 0 && t in p.infos then t !in p'.infos && t !in p'.stacks
      else SameAt(p, p', t)
  {
    var p := s.Of(k');
    if ret != 0 && Tid(pidTgid) in p.infos {
      var q := Pending(p.infos - {Tid(pidTgid)}, p.stacks - {Tid(pidTgid)});
      assert LeaveCall(s, k', pidTgid, ret, now).Of(k) == s.With(k', q).Of(k);
    }
  }

  /** The pending maps hold exactly the open entries, and the two maps of a kind are in step. */
  lemma {:induction false} PendingIsOpenEntry(steps: seq<Step>, k: Kind, t: u32)
    ensures var p, j := KernelRun(steps).Of(k), OpenEntry(steps, k, t);
      && (t in p.infos <==> j >= 0) && (t in p.stacks <==> j >= 0)
      && (j >= 0 ==> p.infos[t] == PendingInfo(steps[j].size, StackIdOf(steps[j].capture)))
      && (j >= 0 ==> p.stacks[t] == StackOf(steps[j].capture))
  {
    if steps != [] {
      PendingIsOpenEntry(steps[..|steps| - 1], k, t);
      PendingStep(KernelRun(steps[..|steps| - 1]), steps[|steps| - 1], k, t);
    }
  }

  /** Step `j` is the latest call of kind `k` by thread `tid`, and no non-null return of that kind to that thread
      came after it. */
  ghost predicate IsOpenCall(steps: seq<Step>, k: Kind, tid: u32, j: nat) {
    && j < |steps| && steps[j].Enter? && steps[j].kind == k && steps[j].pidTgid % TWO32 == tid
    && forall m :: j < m < |steps| && !steps[m].Consume? && steps[m].pidTgid % TWO32 == tid ==>
         && !(steps[m].Enter? && steps[m].kind == k)
         && !(steps[m].Leave? && steps[m].kind == k && steps[m].ret != 0)
  }

  lemma OpenEntryIsOpenCall(steps: seq<Step>, k: Kind, tid: u32, j: nat)
    ensures IsOpenCall(steps, k, tid, j) <==> j == OpenEntry(steps, k, tid)
  {
    var o := OpenEntry(steps, k, tid);
    if IsOpenCall(steps, k, tid, j) {
      assert EntersCall(steps[j], k, tid);
    }
  }

  /** The event `e` of a call of kind `k` by thread `tid` of process `pid`: size, stack id and PCs are those of
      the entry. */
  predicate IsReturnEvent(e: MemEvent, pid: u32, tid: u32, ret: Step, entry: Step)
    requires ret.Leave? && entry.Enter?
  {
    var c := entry.capture;
    && e.pid == pid && e.tid == tid && e.timestamp == ret.now
    && (ret.kind.Malloc? <==> e.payload.MallocRet?)
    && (ret.kind.Calloc? <==> e.payload.CallocRet?)
    && (ret.kind.Realloc? <==> e.payload.ReallocRet?)
    && (ret.kind.Realloc? ==> e.payload.oldAddr == 0)
    && IsAllocation(e.payload) && e.payload.addr == ret.ret && e.payload.size == entry.size
    && e.stackId == (if c.firstId >= 0 then c.firstId else c.retryId)
    && e.stackDepth == (if c.bytes <= 0 then 0 else if c.bytes / 8 < 32 then c.bytes / 8 else 32)
    && e.payload.pcs[..e.stackDepth] == c.pcs[..e.stackDepth]
    && forall i :: e.stackDepth <= i < 32 ==> e.payload.pcs[i] == 0
  }

  /** Under any interleaving, a return step of thread `tid` of process `pid` emits nothing when it returns NULL or has
      no open call, and otherwise one event of its own kind with the data of its thread's open call. */
  lemma ReturnPairing(steps: seq<Step>, n: nat, pid: u32, tid: u32)
    requires n < |steps| && steps[n].Leave? && steps[n].pidTgid == pid * TWO32 + tid
    ensures var ret, before, after := steps[n], KernelRun(steps[..n]).ring, KernelRun(steps[..n + 1]).ring;
      && (ret.ret == 0 || (forall j: nat :: !IsOpenCall(steps[..n], ret.kind, tid, j)) ==> after == before)
      && (ret.ret != 0 ==> forall j: nat :: IsOpenCall(steps[..n], ret.kind, tid, j) ==>
            && |after| == |before| + 1 && after[..|before|] == before
            && IsReturnEvent(after[|before|], pid, tid, ret, steps[j]))
  {
    var ret := steps[n];
    IdsOf(pid, tid);
    assert ret.pidTgid == PidTgid(pid, tid);
    PendingIsOpenEntry(steps[..n], ret.kind, tid);
    assert steps[..n + 1][..n] == steps[..n];
    var j := OpenEntry(steps[..n], ret.kind, tid);
    if j >= 0 { OpenEntryIsOpenCall(steps[..n], ret.kind, tid, j); }
    forall i: nat ensures IsOpenCall(steps[..n], ret.kind, tid, i) <==> i == j {
      OpenEntryIsOpenCall(steps[..n], ret.kind, tid, i);
    }
  }

  /** The step belongs to another thread, of this process or another, or to no thread. */
  ghost predicate IsOtherThread(step: Step, tid: u32) {
    step.Consume? || exists pid': u32, tid': u32 :: tid' != tid && step.pidTgid == PidTgid(pid', tid')
  }

  /** Whatever other threads do, a thread's open call and what the kernel holds for it stay as they are. */
  lemma {:induction false} NonInterference(steps: seq<Step>, others: seq<Step>, k: Kind, tid: u32)
    requires forall s <- others :: IsOtherThread(s, tid)
    ensures OpenEntry(steps + others, k, tid) == OpenEntry(steps, k, tid)
    ensures SameAt(KernelRun(steps).Of(k), KernelRun(steps + others).Of(k), tid)
  {
    if others == [] {
      assert steps + others == steps;
    } else {
      var init, last := others[..|others| - 1], others[|others| - 1];
      NonInterference(steps, init, k, tid);
      assert (steps + others)[..|steps + others| - 1] == steps + init;
      assert last in others;
      OtherThreadHasOtherId(last, tid);
      PendingStep(KernelRun(steps + init), last, k, tid);
    }
  }

  lemma OtherThreadHasOtherId(step: Step, tid: u32)
    requires IsOtherThread(step, tid)
    ensures step.Consume? || Tid(step.pidTgid) != tid
  {
    if !step.Consume? {
      var pid': u32, tid': u32 :| tid' != tid && step.pidTgid == PidTgid(pid', tid');
      IdsOf(pid', tid');
    }
  }

  /** So a call stays open, with its own size and stack, until its thread's next step, however many threads of the
      same process are at work. */
  lemma CallStaysOpen(steps: seq<Step>, call: Step, others: seq<Step>, pid: u32, tid: u32)
    requires call.Enter? && call.pidTgid == pid * TWO32 + tid && forall s <- others :: IsOtherThread(s, tid)
    ensures IsOpenCall(steps + [call] + others, call.kind, tid, |steps|)
  {
    IdsOf(pid, tid);
    assert call.pidTgid == PidTgid(pid, tid);
    assert (steps + [call])[..|steps|] == steps;
    NonInterference(steps + [call], others, call.kind, tid);
    OpenEntryIsOpenCall(steps + [call] + others, call.kind, tid, |steps|);
  }

  /** An entry is consumed at most once: a later return of the same kind and thread pairs with a later entry. */
  lemma EntryConsumedOnce(steps: seq<Step>, m: nat, n: nat, k: Kind, t: u32)
    requires m < n < |steps| && CompletesCall(steps[m], k, t)
    requires OpenEntry(steps[..n], k, t) >= 0
    ensures OpenEntry(steps[..m], k, t) < m < OpenEntry(steps[..n], k, t)
  {
  }

  /** The other steps, by thread `tid` of process `pid`: a `free` of a non-null pointer emits one free event, a
      `realloc` entry one event that changes no table, and nothing else emits. */
  lemma OtherEmissions(steps: seq<Step>, n: nat, pid: u32, tid: u32)
    requires n < |steps| && !steps[n].Leave? && (!steps[n].Consume? ==> steps[n].pidTgid == pid * TWO32 + tid)
    ensures var step := steps[n];
      var before, after := KernelRun(steps[..n]).ring, KernelRun(steps[..n + 1]).ring;
      if (step.Free? && step.ptr != 0) || (step.Enter? && step.kind == Realloc) then
        && |after| == |before| + 1 && after[..|before|] == before
        && var e := after[|before|];
           && e.pid == pid && e.tid == tid && e.timestamp == step.now && e.stackDepth == 0
           && (step.Free? ==> e.payload == FreeEvt(step.ptr) && e.stackId == step.stackId)
           && (step.Enter? ==> e.payload == ReallocEntry(step.ptr, step.size) && e.stackId == 0)
           && (step.Enter? ==> forall recs: seq<AllocRecord> :: Effect(recs, e) == recs)
      else after == before
  {
    IdsOf(pid, tid);
    assert !steps[n].Consume? ==> steps[n].pidTgid == PidTgid(pid, tid);
    assert steps[..n + 1][..n] == steps[..n];
  }

  // ----- where an active allocation comes from -----

  /** Step `n` returns `a` to a thread with an open entry. */
  predicate Opens(steps: seq<Step>, n: nat, a: u64) {
    && n < |steps| && steps[n].Leave? && steps[n].ret == a && a != 0
    && OpenEntry(steps[..n], steps[n].kind, Tid(steps[n].pidTgid)) >= 0
  }

  /** It is the last to do so, and nobody frees `a` afterwards. */
  ghost predicate IsOpening(steps: seq<Step>, n: nat, a: u64) {
    Opens(steps, n, a) && forall m :: n < m < |steps| ==> !Opens(steps, m, a) && !(steps[m].Free? && steps[m].ptr == a)
  }

  /** The entry step that the return at `n` pairs with. */
  function EntryOfReturn(steps: seq<Step>, n: nat, a: u64): (entry: Step)
    requires Opens(steps, n, a)
    ensures EntersCall(entry, steps[n].kind, Tid(steps[n].pidTgid))
  {
    steps[OpenEntry(steps[..n], steps[n].kind, Tid(steps[n].pidTgid))]
  }

  /** The call stack the entry probe captured, as far as an event carries it. */
  function EntryPcs(steps: seq<Step>, n: nat, a: u64): seq<u64>
    requires Opens(steps, n, a)
  {
    var c := EntryOfReturn(steps, n, a).capture;
    c.pcs[..EventDepth(StackOf(c))]
  }

  lemma OpensIffEmits(steps: seq<Step>, n: nat, a: u64)
    requires n < |steps|
    ensures Opens(steps, n, a) <==>
      steps[n].Leave? && steps[n].ret == a && Emits(KernelRun(steps[..n]), steps[n]) != []
  {
    if steps[n].Leave? {
      PendingIsOpenEntry(steps[..n], steps[n].kind, Tid(steps[n].pidTgid));
    }
  }

  /** The event of an opening return carries what its entry probe saw. */
  lemma OpeningEvent(steps: seq<Step>, n: nat, a: u64) returns (e: MemEvent)
    requires Opens(steps, n, a)
    ensures Emits(KernelRun(steps[..n]), steps[n]) == [e]
    ensures IsAllocation(e.payload) && e.payload.addr == a && e.payload.size == EntryOfReturn(steps, n, a).size
    ensures e.stackDepth == |EntryPcs(steps, n, a)| && e.payload.pcs[..e.stackDepth] == EntryPcs(steps, n, a)
    ensures CopyInBounds(e)
  {
    var ret := steps[n];
    PendingIsOpenEntry(steps[..n], ret.kind, Tid(ret.pidTgid));
    e := Emits(KernelRun(steps[..n]), ret)[0];
  }

  ghost predicate IsTop(stack: seq<AllocRecord>, r: AllocRecord) {
    stack != [] && stack[|stack| - 1] == r
  }

  /** What one more event does to an address that stays active. */
  lemma TopOneMore(target: u32, evts: seq<MemEvent>, e: MemEvent, a: u64)
    requires AllInBounds(evts) && CopyInBounds(e)
    requires a in ActiveAfter(evts + [e]) && Accepts(target, ActiveAfter(evts + [e])[a].pid)
    ensures AllInBounds(evts + [e])
    ensures
      if IsAllocation(e.payload) && e.payload.addr == a then IsTop(Outstanding(target, evts + [e], a), RecordOf(e))
      else
        && !(e.payload.FreeEvt? && e.payload.addr == a)
        && a in ActiveAfter(evts) && ActiveAfter(evts)[a] == ActiveAfter(evts + [e])[a]
        && Outstanding(target, evts + [e], a) == Outstanding(target, evts, a)
  {
    var evts' := evts + [e];
    assert evts'[..|evts'| - 1] == evts;
  }

  /** If the last step of a run opened the address, its record is on top. */
  lemma LastStepOpens(target: u32, init: seq<Step>, step: Step, a: u64) returns (e: MemEvent)
    requires Opens(init + [step], |init|, a)
    requires var active := ActiveAfter(KernelRun(init + [step]).ring); a in active && Accepts(target, active[a].pid)
    ensures Emits(KernelRun(init), step) == [e] && IsAllocation(e.payload) && CopyInBounds(e)
    ensures IsTop(Outstanding(target, KernelRun(init + [step]).ring, a), RecordOf(e))
  {
    var steps := init + [step];
    assert steps[..|init|] == init && steps[..|init| + 1] == steps;
    e := OpeningEvent(steps, |init|, a);
    var ring, evts := HistoryStep(steps, |init|);
    TopOneMore(target, ring, e, a);
  }

  /** If it did not, it left the address, its data and its records as they were. */
  lemma LastStepKeeps(target: u32, init: seq<Step>, step: Step, a: u64)
    requires !Opens(init + [step], |init|, a)
    requires var active := ActiveAfter(KernelRun(init + [step]).ring); a in active && Accepts(target, active[a].pid)
    ensures !(step.Free? && step.ptr == a)
    ensures a in ActiveAfter(KernelRun(init).ring)
    ensures ActiveAfter(KernelRun(init).ring)[a] == ActiveAfter(KernelRun(init + [step]).ring)[a]
    ensures Outstanding(target, KernelRun(init + [step]).ring, a) == Outstanding(target, KernelRun(init).ring, a)
  {
    var steps := init + [step];
    assert steps[..|init|] == init && steps[..|init| + 1] == steps;
    var ring, evts := HistoryStep(steps, |init|);
    OpensIffEmits(steps, |init|, a);
    ActiveIsNonNull(steps, a);
    KeptByEvents(target, ring, evts, a);
  }

  /** At most one event, and none that hands out the address. */
  lemma KeptByEvents(target: u32, ring: seq<MemEvent>, evts: seq<MemEvent>, a: u64)
    requires AllInBounds(ring) && AllInBounds(evts) && |evts| <= 1
    requires var active := ActiveAfter(ring + evts); a in active && Accepts(target, active[a].pid)
    requires !(evts != [] && IsAllocation(evts[0].payload) && evts[0].payload.addr == a)
    ensures AllInBounds(ring + evts)
    ensures !(evts != [] && evts[0].payload.FreeEvt? && evts[0].payload.addr == a)
    ensures a in ActiveAfter(ring) && ActiveAfter(ring)[a] == ActiveAfter(ring + evts)[a]
    ensures Outstanding(target, ring + evts, a) == Outstanding(target, ring, a)
  {
    if evts == [] {
      assert ring + evts == ring;
    } else {
      assert evts == [evts[0]];
      TopOneMore(target, ring, evts[0], a);
    }
  }

  lemma {:induction false} ActiveIsNonNull(steps: seq<Step>, a: u64)
    requires a in ActiveAfter(KernelRun(steps).ring)
    ensures a != 0
  {
    var k := |steps| - 1;
    var ring, evts := HistoryStep(steps, k);
    assert steps[..k + 1] == steps;
    if evts == [] {
      assert ring + evts == ring;
      ActiveIsNonNull(steps[..k], a);
    } else {
      assert evts == [evts[0]] && (ring + evts)[..|ring|] == ring;
      if a in ActiveAfter(ring) { ActiveIsNonNull(steps[..k], a); }
    }
  }

  /** Every active address was opened by a return, and the newest outstanding record is the one of its event. */
  lemma {:induction false} ActiveIsOpened(target: u32, steps: seq<Step>, a: u64) returns (n: nat, e: MemEvent)
    requires var active := ActiveAfter(KernelRun(steps).ring); a in active && Accepts(target, active[a].pid)
    ensures IsOpening(steps, n, a) && Emits(KernelRun(steps[..n]), steps[n]) == [e]
    ensures IsAllocation(e.payload) && CopyInBounds(e)
    ensures IsTop(Outstanding(target, KernelRun(steps).ring, a), RecordOf(e))
  {
    var k := |steps| - 1;
    var init := steps[..k];
    assert steps == init + [steps[k]];
    if Opens(steps, k, a) {
      n := k;
      e := LastStepOpens(target, init, steps[k], a);
    } else {
      LastStepKeeps(target, init, steps[k], a);
      n, e := ActiveIsOpened(target, init, a);
      OpeningStays(init, steps[k], n, a);
    }
  }

  /** What happens to other addresses does not touch an opening. */
  lemma OpeningStays(steps: seq<Step>, step: Step, n: nat, a: u64)
    requires IsOpening(steps, n, a) && !Opens(steps + [step], |steps|, a) && !(step.Free? && step.ptr == a)
    ensures var steps' := steps + [step];
      IsOpening(steps', n, a) && steps'[..n] == steps[..n] && steps'[n] == steps[n]
  {
    var steps' := steps + [step];
    assert forall m :: 0 <= m <= |steps| ==> steps'[..m] == steps[..m];
    assert forall m :: 0 <= m < |steps| ==> steps'[m] == steps[m];
  }
}
