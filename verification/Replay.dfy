/** What the collector's table means: a list of allocation records in arrival order, and the
    effect of one ring event on it. The hash table of module `Collector` refines this. */
module Replay {
  import opened Words

  const COLLECTOR_SLOTS: nat := 64  // MAX_STACK_DEPTH of collector.h
  const KERNEL_SLOTS: nat := 32     // MAX_STACK_DEPTH of memscope_common.h

  type KernelPcs = s: seq<u64> | |s| == 32 witness seq(32, i => 0)
  type CollectorPcs = s: seq<u64> | |s| == 64 witness seq(64, i => 0)

  datatype Payload =
    | MallocRet(addr: u64, size: u64, pcs: KernelPcs)
    | CallocRet(addr: u64, size: u64, pcs: KernelPcs)
    | ReallocRet(addr: u64, size: u64, oldAddr: u64, pcs: KernelPcs)
    | FreeEvt(addr: u64)
    | ReallocEntry(oldAddr: u64, newSize: u64)
    | Ignored  // malloc entry, mmap, munmap and stack samples

  datatype MemEvent = MemEvent(pid: u32, tid: u32, timestamp: u64, stackId: i64, stackDepth: u32, payload: Payload)

  datatype AllocRecord = AllocRecord(
    addr: u64, size: u64, stackId: i64, timestampAlloc: u64, timestampFree: u64,
    pid: u32, tid: u32, live: bool, stackPcs: CollectorPcs, stackDepth: i32)

  predicate IsAllocation(p: Payload) {
    p.MallocRet? || p.CallocRet? || p.ReallocRet?
  }

  /** The collector copies `stackDepth` words out of a payload that holds 32: this is what keeps it inside. */
  predicate CopyInBounds(e: MemEvent) {
    IsAllocation(e.payload) ==> e.stackDepth <= KERNEL_SLOTS
  }

  function Zeros(n: nat): (r: seq<u64>)
    ensures |r| == n
  {
    seq(n, i => 0)
  }

  function RecordOf(e: MemEvent): (r: AllocRecord)
    requires IsAllocation(e.payload) && CopyInBounds(e)
    ensures r.live && r.addr == e.payload.addr && r.size == e.payload.size && r.timestampAlloc == e.timestamp
    ensures r.pid == e.pid && r.tid == e.tid && r.stackId == e.stackId && r.stackDepth == e.stackDepth
    ensures forall i :: 0 <= i < COLLECTOR_SLOTS ==> r.stackPcs[i] == if i < e.stackDepth then e.payload.pcs[i] else 0
  {
    AllocRecord(
      e.payload.addr, e.payload.size, e.stackId, e.timestamp, 0, e.pid, e.tid, true,
      e.payload.pcs[..e.stackDepth] + Zeros(COLLECTOR_SLOTS - e.stackDepth), Signed32(e.stackDepth))
  }

  predicate LiveAt(r: AllocRecord, a: u64) {
    r.live && r.addr == a
  }

  /** Newest-first linear scan: the index of the last live record at `a`, or -1. */
  function NewestLive(recs: seq<AllocRecord>, a: u64): (r: int)
    ensures -1 <= r < |recs|
    ensures r >= 0 ==> LiveAt(recs[r], a)
    ensures forall j :: r < j < |recs| ==> !LiveAt(recs[j], a)
  {
    if recs == [] then -1
    else if LiveAt(recs[|recs| - 1], a) then |recs| - 1
    else NewestLive(recs[..|recs| - 1], a)
  }

  /** Clears the newest live record at `a`, if there is one. */
  function Kill(recs: seq<AllocRecord>, a: u64, now: u64): (r: seq<AllocRecord>)
    ensures |r| == |recs|
    ensures forall i :: 0 <= i < |recs| ==> r[i].addr == recs[i].addr && (i != NewestLive(recs, a) ==> r[i] == recs[i])
    ensures NewestLive(recs, a) >= 0 ==> !r[NewestLive(recs, a)].live && r[NewestLive(recs, a)].timestampFree == now
  {
    var i := NewestLive(recs, a);
    if i < 0 then recs else recs[i := recs[i].(live := false, timestampFree := now)]
  }

  /** The effect of one event on the record list of a collector that listens to every process. */
  function Effect(recs: seq<AllocRecord>, e: MemEvent): seq<AllocRecord>
    requires CopyInBounds(e)
  {
    if IsAllocation(e.payload) then recs + [RecordOf(e)]
    else if e.payload.FreeEvt? then Kill(recs, e.payload.addr, e.timestamp)
    else recs
  }

  predicate Accepts(target: u32, pid: u32) {
    target == 0 || pid == target
  }

  /** The same when `target` is 0 or the only process listened to. */
  function Apply(target: u32, recs: seq<AllocRecord>, e: MemEvent): seq<AllocRecord>
    requires CopyInBounds(e)
  {
    if Accepts(target, e.pid) then Effect(recs, e) else recs
  }

  function ReplayAll(target: u32, recs: seq<AllocRecord>, evts: seq<MemEvent>): seq<AllocRecord>
    requires forall e <- evts :: CopyInBounds(e)
  {
    if evts == [] then recs
    else Apply(target, ReplayAll(target, recs, evts[..|evts| - 1]), evts[|evts| - 1])
  }

  lemma ReplayOneMore(target: u32, recs: seq<AllocRecord>, evts: seq<MemEvent>, e: MemEvent)
    requires (forall x <- evts :: CopyInBounds(x)) && CopyInBounds(e)
    ensures forall x <- evts + [e] :: CopyInBounds(x)
    ensures (evts + [e])[..|evts|] == evts
    ensures ReplayAll(target, recs, evts + [e]) == Apply(target, ReplayAll(target, recs, evts), e)
  {
    assert (evts + [e])[..|evts|] == evts;
  }

  /** Replaying in two portions is replaying everything: it does not matter where the queue is cut. */
  lemma {:induction false} ReplaySplit(target: u32, recs: seq<AllocRecord>, xs: seq<MemEvent>, ys: seq<MemEvent>)
    requires forall e <- xs + ys :: CopyInBounds(e)
    ensures forall e <- xs :: CopyInBounds(e)
    ensures forall e <- ys :: CopyInBounds(e)
    ensures ReplayAll(target, ReplayAll(target, recs, xs), ys) == ReplayAll(target, recs, xs + ys)
  {
    assert forall i :: 0 <= i < |xs| ==> xs[i] == (xs + ys)[i];
    assert forall i :: 0 <= i < |ys| ==> ys[i] == (xs + ys)[|xs| + i];
    if ys == [] {
      assert xs + ys == xs;
    } else {
      var init := ys[..|ys| - 1];
      assert (xs + ys)[..|xs + ys| - 1] == xs + init;
      ReplaySplit(target, recs, xs, init);
    }
  }

  // ----- listening to one process -----

  function EffectOfAll(recs: seq<AllocRecord>, evts: seq<MemEvent>): seq<AllocRecord>
    requires forall e <- evts :: CopyInBounds(e)
  {
    if evts == [] then recs else Effect(EffectOfAll(recs, evts[..|evts| - 1]), evts[|evts| - 1])
  }

  /** The events of one process, in order. */
  function OfProcess(evts: seq<MemEvent>, pid: u32): (r: seq<MemEvent>)
    ensures forall e :: e in r <==> e in evts && e.pid == pid
  {
    if evts == [] then []
    else
      var init, e := OfProcess(evts[..|evts| - 1], pid), evts[|evts| - 1];
      if e.pid == pid then init + [e] else init
  }

  /** With target 0 every event takes effect. */
  lemma {:induction false} UnfilteredReplay(recs: seq<AllocRecord>, evts: seq<MemEvent>)
    requires forall e <- evts :: CopyInBounds(e)
    ensures ReplayAll(0, recs, evts) == EffectOfAll(recs, evts)
  {
    if evts != [] {
      UnfilteredReplay(recs, evts[..|evts| - 1]);
    }
  }

  lemma EffectOneMore(recs: seq<AllocRecord>, evts: seq<MemEvent>, e: MemEvent)
    requires (forall x <- evts :: CopyInBounds(x)) && CopyInBounds(e)
    ensures forall x <- evts + [e] :: CopyInBounds(x)
    ensures EffectOfAll(recs, evts + [e]) == Effect(EffectOfAll(recs, evts), e)
  {
    assert (evts + [e])[..|evts|] == evts;
  }

  /** With another target exactly the events of that process do. */
  lemma {:induction false} FilteredReplay(target: u32, recs: seq<AllocRecord>, evts: seq<MemEvent>)
    requires target != 0 && forall e <- evts :: CopyInBounds(e)
    ensures ReplayAll(target, recs, evts) == EffectOfAll(recs, OfProcess(evts, target))
  {
    if evts != [] {
      var init, e := evts[..|evts| - 1], evts[|evts| - 1];
      FilteredReplay(target, recs, init);
      EffectOneMore(recs, OfProcess(init, target), e);
    }
  }

  /** And only its records get into the table. */
  lemma {:induction false} RecordsOfProcess(recs: seq<AllocRecord>, evts: seq<MemEvent>, pid: u32)
    requires forall e <- evts :: CopyInBounds(e) && e.pid == pid
    requires forall r <- recs :: r.pid == pid
    ensures forall r <- EffectOfAll(recs, evts) :: r.pid == pid
  {
    if evts != [] {
      var init, e := evts[..|evts| - 1], evts[|evts| - 1];
      RecordsOfProcess(recs, init, pid);
      var before := EffectOfAll(recs, init);
      if e.payload.FreeEvt? { KillKeepsProcess(before, e.payload.addr, e.timestamp, pid); }
    }
  }

  lemma KillKeepsProcess(recs: seq<AllocRecord>, a: u64, now: u64, pid: u32)
    requires forall r <- recs :: r.pid == pid
    ensures forall r <- Kill(recs, a, now) :: r.pid == pid
  {
    var killed := Kill(recs, a, now);
    forall i | 0 <= i < |killed| ensures killed[i].pid == pid {
      assert recs[i] in recs;
    }
  }

  // ----- the live records of one address form a stack -----

  /** The live records at one address, oldest first. */
  function LiveRecords(recs: seq<AllocRecord>, a: u64): (r: seq<AllocRecord>)
    ensures r == [] <==> NewestLive(recs, a) < 0
    ensures r != [] ==> r[|r| - 1] == recs[NewestLive(recs, a)]
  {
    if recs == [] then []
    else
      var init := LiveRecords(recs[..|recs| - 1], a);
      if LiveAt(recs[|recs| - 1], a) then init + [recs[|recs| - 1]] else init
  }

  function Pop<T>(s: seq<T>): seq<T> {
    if s == [] then s else s[..|s| - 1]
  }

  lemma AppendPushes(recs: seq<AllocRecord>, r: AllocRecord, a: u64)
    ensures LiveRecords(recs + [r], a) == if LiveAt(r, a) then LiveRecords(recs, a) + [r] else LiveRecords(recs, a)
  {
  }

  lemma {:induction false} KillPops(recs: seq<AllocRecord>, a: u64, now: u64, b: u64)
    ensures LiveRecords(Kill(recs, a, now), b) == if a == b then Pop(LiveRecords(recs, b)) else LiveRecords(recs, b)
  {
    if recs != [] {
      var init, last := recs[..|recs| - 1], recs[|recs| - 1];
      var killed := Kill(recs, a, now);
      if LiveAt(last, a) {
        assert killed[..|killed| - 1] == init;
      } else {
        KillPops(init, a, now, b);
        assert killed[..|killed| - 1] == Kill(init, a, now);
      }
    }
  }

  /** What an event does to the stack of outstanding records at `a`: returns push, frees pop. */
  function StackStep(target: u32, stack: seq<AllocRecord>, e: MemEvent, a: u64): seq<AllocRecord>
    requires CopyInBounds(e)
  {
    if !Accepts(target, e.pid) then stack
    else if IsAllocation(e.payload) && e.payload.addr == a then stack + [RecordOf(e)]
    else if e.payload.FreeEvt? && e.payload.addr == a then Pop(stack)
    else stack
  }

  /** What a history of events leaves outstanding at `a`. */
  function Outstanding(target: u32, evts: seq<MemEvent>, a: u64): seq<AllocRecord>
    requires forall e <- evts :: CopyInBounds(e)
  {
    if evts == [] then []
    else StackStep(target, Outstanding(target, evts[..|evts| - 1], a), evts[|evts| - 1], a)
  }

  lemma ApplyIsStackStep(target: u32, recs: seq<AllocRecord>, e: MemEvent, a: u64)
    requires CopyInBounds(e)
    ensures LiveRecords(Apply(target, recs, e), a) == StackStep(target, LiveRecords(recs, a), e, a)
  {
    if Accepts(target, e.pid) {
      if IsAllocation(e.payload) {
        AppendPushes(recs, RecordOf(e), a);
      } else if e.payload.FreeEvt? {
        KillPops(recs, e.payload.addr, e.timestamp, a);
      }
    }
  }

  /** For every history the live records at an address are exactly the stack the history leaves there. */
  lemma {:induction false} LiveRecordsAreAStack(target: u32, evts: seq<MemEvent>, a: u64)
    requires forall e <- evts :: CopyInBounds(e)
    ensures LiveRecords(ReplayAll(target, [], evts), a) == Outstanding(target, evts, a)
  {
    if evts != [] {
      var init, e := evts[..|evts| - 1], evts[|evts| - 1];
      LiveRecordsAreAStack(target, init, a);
      ApplyIsStackStep(target, ReplayAll(target, [], init), e, a);
    }
  }
}
