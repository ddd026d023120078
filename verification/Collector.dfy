/** The collector's chained hash table: a flat record array, bucket heads and a parallel array of links.
    `Contents()` is the record list of module `Replay`; every method is proved against it. */
module Collector {
  import opened Words
  import opened HashMixer
  import opened Replay

  const DEFAULT_CAPACITY: nat := 4096
  const MAX_INT: int := 0x7fff_ffff

  newtype BucketNo = b: int | 0 <= b < 65536  // below HASH_SIZE

  function Mask(h: u32): (b: BucketNo)
    ensures h < HASH_SIZE ==> b as int == h
  {
    (h % HASH_SIZE) as BucketNo
  }

  /** The second mask is redundant: the hash is a bucket number already. */
  function Bucket(a: u64): (b: BucketNo)
    ensures b as int == AllocHash(a)
  {
    Mask(AllocHash(a))
  }

  /** `(int)idx`, truncating as the usual compilers do. */
  function IntOf(idx: nat): i32 {
    Signed32(Wrap32(idx))
  }

  /** An index survives the cast exactly when it is at most `INT_MAX`; the next 2^31 of them turn negative,
      which the chain walk reads as the end of a chain. */
  lemma IndexSurvivesCastIff(idx: nat)
    ensures IntOf(idx) == idx <==> idx <= MAX_INT
    ensures MAX_INT < idx < TWO32 ==> IntOf(idx) < 0
  {
  }

  /** The bucket of every record under the hash `hash`. */
  ghost function Buckets(recs: seq<AllocRecord>, hash: u64 -> BucketNo): (bs: seq<BucketNo>)
    ensures |bs| == |recs|
  {
    seq(|recs|, i requires 0 <= i < |recs| => hash(recs[i].addr))
  }

  lemma BucketsOneMore(recs: seq<AllocRecord>, rec: AllocRecord, hash: u64 -> BucketNo)
    ensures Buckets(recs + [rec], hash) == Buckets(recs, hash) + [hash(rec.addr)]
  {
  }

  // ----- the index over a sequence of bucket numbers -----

  /** The bucket heads after the records in buckets `bs` were linked one by one. */
  ghost function Heads(bs: seq<BucketNo>): (heads: seq<int>)
    ensures |heads| == HASH_SIZE
  {
    if bs == [] then seq(HASH_SIZE, i => -1)
    else Heads(bs[..|bs| - 1])[bs[|bs| - 1] := |bs| - 1]
  }

  /** The links after the records in buckets `bs` were linked one by one. */
  ghost function Links(bs: seq<BucketNo>): (links: seq<int>)
    ensures |links| == |bs|
  {
    if bs == [] then []
    else Links(bs[..|bs| - 1]) + [Heads(bs[..|bs| - 1])[bs[|bs| - 1]]]
  }

  lemma LinkOne(bs: seq<BucketNo>, b: BucketNo)
    ensures Heads(bs + [b]) == Heads(bs)[b := |bs|]
    ensures Links(bs + [b]) == Links(bs) + [Heads(bs)[b]]
  {
  }

  /** The index after one more record. */
  lemma IndexOneMore(recs: seq<AllocRecord>, rec: AllocRecord, hash: u64 -> BucketNo)
    ensures var bs, bs', b := Buckets(recs, hash), Buckets(recs + [rec], hash), hash(rec.addr);
      Heads(bs') == Heads(bs)[b := |recs|] && Links(bs') == Links(bs) + [Heads(bs)[b]]
  {
    BucketsOneMore(recs, rec, hash);
    LinkOne(Buckets(recs, hash), hash(rec.addr));
  }

  /** `r` is the largest index below `n` whose bucket is `b`, or -1. */
  ghost predicate IsLast(bs: seq<BucketNo>, n: int, b: BucketNo, r: int)
    requires 0 <= n <= |bs|
  {
    && -1 <= r < n
    && (r >= 0 ==> bs[r] == b)
    && forall j :: r < j < n ==> bs[j] != b
  }

  lemma {:induction false} HeadIsLast(bs: seq<BucketNo>, b: BucketNo)
    ensures IsLast(bs, |bs|, b, Heads(bs)[b])
  {
    if bs != [] && bs[|bs| - 1] != b {
      HeadIsLast(bs[..|bs| - 1], b);
    }
  }

  lemma {:induction false} LinkIsLast(bs: seq<BucketNo>, i: nat)
    requires i < |bs|
    ensures IsLast(bs, i, bs[i], Links(bs)[i])
  {
    var init := bs[..|bs| - 1];
    if i < |init| {
      LinkIsLast(init, i);
    } else {
      HeadIsLast(init, bs[i]);
    }
  }

  /** The indices below `n` in bucket `b`, newest first. */
  ghost function BucketIndices(bs: seq<BucketNo>, n: nat, b: BucketNo): seq<int>
    requires n <= |bs|
  {
    if n == 0 then []
    else if bs[n - 1] == b then [n - 1] + BucketIndices(bs, n - 1, b)
    else BucketIndices(bs, n - 1, b)
  }

  lemma {:induction false} BucketIndicesExact(bs: seq<BucketNo>, n: nat, b: BucketNo)
    requires n <= |bs|
    ensures forall i :: i in BucketIndices(bs, n, b) <==> 0 <= i < n && bs[i] == b
    ensures forall i, j :: 0 <= i < j < |BucketIndices(bs, n, b)| ==>
      BucketIndices(bs, n, b)[i] > BucketIndices(bs, n, b)[j]
  {
    if n > 0 {
      BucketIndicesExact(bs, n - 1, b);
      var rest := BucketIndices(bs, n - 1, b);
      assert forall k :: 0 <= k < |rest| ==> rest[k] in rest;
    }
  }

  lemma {:induction false} BucketIndicesFromLast(bs: seq<BucketNo>, n: nat, b: BucketNo, r: int)
    requires n <= |bs| && IsLast(bs, n, b, r)
    ensures BucketIndices(bs, n, b) == if r < 0 then [] else [r] + BucketIndices(bs, r, b)
  {
    if n > 0 && r < n - 1 {
      BucketIndicesFromLast(bs, n - 1, b, r);
    }
  }

  /** Follows the links from `idx`. */
  ghost function Chain(bs: seq<BucketNo>, idx: int): seq<int>
    requires -1 <= idx < |bs|
    decreases idx
  {
    if idx < 0 then [] else
      LinkIsLast(bs, idx);
      [idx] + Chain(bs, Links(bs)[idx])
  }

  lemma {:induction false} ChainFrom(bs: seq<BucketNo>, idx: int)
    requires 0 <= idx < |bs|
    ensures Chain(bs, idx) == [idx] + BucketIndices(bs, idx, bs[idx])
    decreases idx
  {
    var next := Links(bs)[idx];
    LinkIsLast(bs, idx);
    BucketIndicesFromLast(bs, idx, bs[idx], next);
    if next >= 0 {
      ChainFrom(bs, next);
    }
  }

  /** Every bucket's chain lists exactly the indices in that bucket, in strictly decreasing order. */
  lemma ChainExact(bs: seq<BucketNo>, b: BucketNo)
    ensures -1 <= Heads(bs)[b] < |bs|
    ensures var chain := Chain(bs, Heads(bs)[b]);
      && (forall i :: i in chain <==> 0 <= i < |bs| && bs[i] == b)
      && (forall i, j :: 0 <= i < j < |chain| ==> chain[i] > chain[j])
  {
    HeadIsLast(bs, b);
    BucketIndicesFromLast(bs, |bs|, b, Heads(bs)[b]);
    BucketIndicesExact(bs, |bs|, b);
    if Heads(bs)[b] >= 0 {
      ChainFrom(bs, Heads(bs)[b]);
    }
  }

  // ----- the record list of a table that may run out of memory -----

  /** A record list with the capacity of the arrays that hold it. */
  datatype Bounded = Bounded(recs: seq<AllocRecord>, capacity: nat)
  {
    /** One more record: a full table doubles if there is `memory` for it, else the record is dropped. */
    function Add(r: AllocRecord, memory: bool): Bounded {
      if |recs| < capacity then Bounded(recs + [r], capacity)
      else if memory then Bounded(recs + [r], 2 * capacity)
      else this
    }
  }

  /** The effect of one event when every process is listened to. */
  function EffectBounded(t: Bounded, e: MemEvent, memory: bool): (t': Bounded)
    requires CopyInBounds(e)
    ensures |t.recs| <= |t'.recs| <= |t.recs| + 1
  {
    if IsAllocation(e.payload) then t.Add(RecordOf(e), memory) else t.(recs := Effect(t.recs, e))
  }

  function ApplyBounded(target: u32, t: Bounded, e: MemEvent, memory: bool): (t': Bounded)
    requires CopyInBounds(e)
    ensures |t.recs| <= |t'.recs| <= |t.recs| + 1
  {
    if Accepts(target, e.pid) then EffectBounded(t, e, memory) else t
  }

  /** The effect of a queue of events; `memory[i]` says whether there is memory while event `i` is handled. */
  function ReplayBounded(target: u32, t: Bounded, evts: seq<MemEvent>, memory: seq<bool>): Bounded
    requires |memory| == |evts| && forall e <- evts :: CopyInBounds(e)
  {
    if evts == [] then t
    else
      var n := |evts| - 1;
      ApplyBounded(target, ReplayBounded(target, t, evts[..n], memory[..n]), evts[n], memory[n])
  }

  /** Event `i` is dropped: it would add a record, but the table is full by then and there is no memory. */
  predicate IsDropped(target: u32, t: Bounded, evts: seq<MemEvent>, memory: seq<bool>, i: nat)
    requires |memory| == |evts| && i < |evts| && forall e <- evts :: CopyInBounds(e)
  {
    var before := ReplayBounded(target, t, evts[..i], memory[..i]);
    Accepts(target, evts[i].pid) && IsAllocation(evts[i].payload) && |before.recs| >= before.capacity && !memory[i]
  }

  /** The events that take effect. */
  function Kept(target: u32, t: Bounded, evts: seq<MemEvent>, memory: seq<bool>): (kept: seq<MemEvent>)
    requires |memory| == |evts| && forall e <- evts :: CopyInBounds(e)
    ensures |kept| <= |evts| && forall e <- kept :: CopyInBounds(e)
  {
    if evts == [] then []
    else
      var n := |evts| - 1;
      var init := Kept(target, t, evts[..n], memory[..n]);
      if IsDropped(target, t, evts, memory, n) then init else init + [evts[n]]
  }

  /** Short of memory the list is the replay of the events that take effect. */
  lemma {:induction false} BoundedIsReplayOfKept(target: u32, t: Bounded, evts: seq<MemEvent>, memory: seq<bool>)
    requires |memory| == |evts| && forall e <- evts :: CopyInBounds(e)
    ensures ReplayBounded(target, t, evts, memory).recs == ReplayAll(target, t.recs, Kept(target, t, evts, memory))
  {
    if evts != [] {
      var n := |evts| - 1;
      BoundedIsReplayOfKept(target, t, evts[..n], memory[..n]);
      ReplayOneMore(target, t.recs, Kept(target, t, evts[..n], memory[..n]), evts[n]);
    }
  }

  /** Those are all events exactly when none is dropped. */
  lemma {:induction false} AllKeptIff(target: u32, t: Bounded, evts: seq<MemEvent>, memory: seq<bool>)
    requires |memory| == |evts| && forall e <- evts :: CopyInBounds(e)
    ensures Kept(target, t, evts, memory) == evts <==>
      forall i: nat :: i < |evts| ==> !IsDropped(target, t, evts, memory, i)
  {
    if evts != [] {
      var n := |evts| - 1;
      AllKeptIff(target, t, evts[..n], memory[..n]);
      assert evts == evts[..n] + [evts[n]];
      forall i: nat | i < n
        ensures IsDropped(target, t, evts, memory, i) <==> IsDropped(target, t, evts[..n], memory[..n], i)
      {
        DroppedEarlier(target, t, evts, memory, n, i);
      }
    }
  }

  lemma DroppedEarlier(target: u32, t: Bounded, evts: seq<MemEvent>, memory: seq<bool>, n: nat, i: nat)
    requires |memory| == |evts| && i < n <= |evts| && forall e <- evts :: CopyInBounds(e)
    ensures IsDropped(target, t, evts, memory, i) <==> IsDropped(target, t, evts[..n], memory[..n], i)
  {
    assert evts[..n][..i] == evts[..i] && memory[..n][..i] == memory[..i];
  }

  function Both(xs: seq<bool>, ys: seq<bool>): (r: seq<bool>)
    requires |xs| == |ys|
    ensures |r| == |xs|
  {
    seq(|xs|, i requires 0 <= i < |xs| => xs[i] && ys[i])
  }

  lemma BoundedOneMore(target: u32, t: Bounded, evts: seq<MemEvent>, memory: seq<bool>, i: nat)
    requires |memory| == |evts| && i < |evts| && forall e <- evts :: CopyInBounds(e)
    ensures ReplayBounded(target, t, evts[..i + 1], memory[..i + 1]) ==
      ApplyBounded(target, ReplayBounded(target, t, evts[..i], memory[..i]), evts[i], memory[i])
  {
    assert evts[..i + 1][..i] == evts[..i] && memory[..i + 1][..i] == memory[..i];
  }

  class AllocTable {
    /** The hash in use. The constructor installs `Bucket`; nothing below depends on which hash it is. */
    const hash: u64 -> BucketNo
    var records: array<AllocRecord>
    var count: nat
    var capacity: nat
    var hashBuckets: array<int>
    var hashNext: array<int>

    ghost predicate Valid()
      reads this, records, hashBuckets, hashNext
    {
      && count <= capacity && 0 < capacity
      && capacity <= records.Length && capacity <= hashNext.Length
      && hashBuckets.Length == HASH_SIZE && hashBuckets != hashNext
      && hashBuckets[..] == Heads(Buckets(Contents(), hash))
      && hashNext[..count] == Links(Buckets(Contents(), hash))
    }

    ghost function Contents(): (s: seq<AllocRecord>)
      requires count <= records.Length
      reads this, records
    {
      records[..count]
    }

    ghost function List(): (t: Bounded)
      requires count <= records.Length
      reads this, records
    {
      Bounded(Contents(), capacity)
    }

    constructor (initialCapacity: nat)
      ensures Valid() && Contents() == []
      ensures capacity == if initialCapacity == 0 then 4096 else initialCapacity
      ensures fresh(records) && fresh(hashBuckets) && fresh(hashNext)
      ensures forall a :: hash(a) == Bucket(a)
    {
      var cap := if initialCapacity == 0 then DEFAULT_CAPACITY else initialCapacity;
      hash := Bucket;
      count, capacity := 0, cap;
      records := new AllocRecord[cap];
      hashBuckets := new int[HASH_SIZE](i => -1);
      hashNext := new int[cap](i => -1);
    }

    /** `alloc_table_init`: three allocations, each of which may fail; `null` stands for -ENOMEM. */
    static method Init(initialCapacity: nat, recordsOk: bool, bucketsOk: bool, nextOk: bool)
      returns (table: AllocTable?)
      ensures table != null <==> recordsOk && bucketsOk && nextOk
      ensures table != null ==> fresh(table) && table.Valid() && table.Contents() == []
      ensures table != null ==> table.capacity == if initialCapacity == 0 then 4096 else initialCapacity
    {
      if !recordsOk { return null; }
      if !bucketsOk { return null; }
      if !nextOk { return null; }
      table := new AllocTable(initialCapacity);
    }

    /** Doubles the capacity. `recordsOk` and `nextOk` say whether each `realloc` succeeds. */
    method Grow(recordsOk: bool, nextOk: bool) returns (ok: bool)
      requires Valid()
      modifies this
      ensures Valid() && Contents() == old(Contents())
      ensures ok == (recordsOk && nextOk)
      ensures capacity == if ok then 2 * old(capacity) else old(capacity)
      ensures hashBuckets == old(hashBuckets) && hashBuckets[..] == old(hashBuckets[..])
      ensures hashNext[..count] == old(hashNext[..count])
      ensures ok ==> forall i :: old(capacity) <= i < capacity ==> hashNext[i] == -1
      ensures records == old(records) || fresh(records)
      ensures hashNext == old(hashNext) || fresh(hashNext)
    {
      var newCap := capacity * 2;
      if !recordsOk { return false; }
      GrowRecords(newCap);
      if !nextOk { return false; }
      GrowLinks(newCap);
      return true;
    }

    method GrowRecords(newCap: nat)
      requires Valid() && capacity <= newCap
      modifies this`records
      ensures Valid() && Contents() == old(Contents())
      ensures records.Length == newCap && fresh(records)
    {
      records := Realloc(records, capacity, newCap);
      assert Contents() == records[..capacity][..count] == old(Contents());
    }

    method GrowLinks(newCap: nat)
      requires Valid() && capacity <= newCap <= records.Length
      modifies this`hashNext, this`capacity
      ensures Valid() && Contents() == old(Contents())
      ensures hashNext.Length == capacity == newCap && fresh(hashNext)
      ensures hashNext[..count] == old(hashNext[..count])
      ensures forall i :: old(capacity) <= i < capacity ==> hashNext[i] == -1
    {
      ghost var kept := hashNext[..capacity];
      hashNext := Realloc(hashNext, capacity, newCap);
      Unlink(hashNext, capacity, newCap);
      assert hashNext[..count] == kept[..count];
      capacity := newCap;
    }

    /** Appends a record and links it at the head of its bucket; when a `realloc` fails the list is unchanged.
        The index stays sound as long as its position survives the cast to `int`. */
    method AddAllocRecord(rec: AllocRecord, recordsOk: bool, nextOk: bool) returns (ok: bool)
      requires Valid()
      modifies this, records, hashBuckets, hashNext
      ensures count <= records.Length
      ensures old(count) <= MAX_INT || !ok ==> Valid()
      ensures ok == (old(count < capacity) || (recordsOk && nextOk))
      ensures capacity == if ok && old(count == capacity) then 2 * old(capacity) else old(capacity)
      ensures Contents() == if ok then old(Contents()) + [rec] else old(Contents())
      ensures hashBuckets == old(hashBuckets)
      ensures records == old(records) || fresh(records)
      ensures hashNext == old(hashNext) || fresh(hashNext)
    {
      if count >= capacity {
        var grown := Grow(recordsOk, nextOk);
        if !grown { return false; }
      }
      Append(rec);
      return true;
    }

    /** Stores a record in the next free slot and makes it the head of its bucket's chain. Past `INT_MAX` the
        record is stored all the same, but the head turns negative and hides the whole bucket. */
    method Append(rec: AllocRecord)
      requires Valid() && count < capacity
      modifies this`count, records, hashBuckets, hashNext
      ensures count <= capacity && capacity <= records.Length && Contents() == old(Contents()) + [rec]
      ensures old(count) <= MAX_INT ==> Valid()
      ensures MAX_INT < old(count) < TWO32 ==> hashBuckets.Length == HASH_SIZE && hashBuckets[hash(rec.addr)] < 0
    {
      ghost var before := Contents();
      ghost var heads, links := hashBuckets[..], hashNext[..count];
      var idx := count;
      var bucket := hash(rec.addr);
      records[idx] := rec;
      hashNext[idx] := -1;
      hashNext[idx] := hashBuckets[bucket];
      hashBuckets[bucket] := IntOf(idx);
      count := count + 1;
      IndexSurvivesCastIff(idx);
      assert Contents() == before + [rec];
      assert hashNext[..count] == links + [heads[bucket]];
      if idx <= MAX_INT {
        assert hashBuckets[..] == heads[bucket := idx];
        IndexOneMore(before, rec, hash);
      }
    }

    /** Clears the live flag of one record. */
    method MarkFreed(idx: nat, now: u64)
      requires Valid() && idx < count
      modifies records
      ensures Valid()
      ensures Contents() == old(Contents())[idx := old(Contents())[idx].(live := false, timestampFree := now)]
    {
      ghost var bs := Buckets(Contents(), hash);
      records[idx] := records[idx].(live := false, timestampFree := now);
      assert Contents() == old(Contents())[idx := records[idx]];
      assert Buckets(Contents(), hash) == bs;
    }

    /** The chain walk: the index of the newest live record at `addr`, or -1 for NULL. */
    method FindLiveAlloc(addr: u64) returns (idx: int)
      requires Valid()
      ensures idx == NewestLive(Contents(), addr)
    {
      var bucket := hash(addr);
      idx := hashBuckets[bucket];
      ghost var recs, bs, links := Contents(), Buckets(Contents(), hash), hashNext[..count];
      HeadIsLast(bs, bucket);
      while idx >= 0
        invariant -1 <= idx < count
        invariant idx >= 0 ==> bs[idx] == bucket
        invariant forall j :: idx < j < count && bs[j] == bucket ==> !LiveAt(recs[j], addr)
        decreases idx
      {
        if records[idx].live && records[idx].addr == addr { break; }
        LinkIsLast(bs, idx);
        idx := hashNext[idx];
      }
      forall j | idx < j < count ensures !LiveAt(recs[j], addr) {
        assert bs[j] == hash(recs[j].addr);
      }
    }

    /** The case of a free: the newest live record at the address, if there is one, is marked. */
    method FreeRecord(addr: u64, now: u64)
      requires Valid()
      modifies records
      ensures Valid() && Contents() == Kill(old(Contents()), addr, now)
    {
      var idx := FindLiveAlloc(addr);
      if idx >= 0 {
        MarkFreed(idx, now);
      }
    }

    /** One ring event. The outcome of `add_alloc_record` is ignored, so an event whose record
        finds no memory leaves the list as it was. */
    method HandleEvent(target: u32, evt: MemEvent, recordsOk: bool, nextOk: bool)
      requires Valid() && CopyInBounds(evt)
      modifies this, records, hashBuckets, hashNext
      ensures count <= records.Length
      ensures old(count) <= MAX_INT || count == old(count) ==> Valid()
      ensures target != 0 && evt.pid != target ==> List() == old(List())
      ensures target == 0 || evt.pid == target ==> List() == EffectBounded(old(List()), evt, recordsOk && nextOk)
      ensures hashBuckets == old(hashBuckets)
      ensures records == old(records) || fresh(records)
      ensures hashNext == old(hashNext) || fresh(hashNext)
    {
      if target != 0 && evt.pid != target { return; }
      match evt.payload {
        case MallocRet(addr, size, pcs) =>
          RecordReturn(evt, addr, size, pcs, recordsOk, nextOk);
        case CallocRet(addr, size, pcs) =>
          RecordReturn(evt, addr, size, pcs, recordsOk, nextOk);
        case ReallocRet(addr, size, _, pcs) =>
          RecordReturn(evt, addr, size, pcs, recordsOk, nextOk);
        case FreeEvt(addr) =>
          FreeRecord(addr, evt.timestamp);
        case ReallocEntry(_, _) =>
        case Ignored =>
      }
    }

    /** One ring event while the table is small enough for its index to stay sound. */
    method HandleNext(target: u32, evt: MemEvent, recordsOk: bool, nextOk: bool)
      requires Valid() && CopyInBounds(evt) && count <= MAX_INT
      modifies this, records, hashBuckets, hashNext
      ensures Valid() && List() == ApplyBounded(target, old(List()), evt, recordsOk && nextOk)
      ensures count <= old(count) + 1
      ensures hashBuckets == old(hashBuckets)
      ensures records == old(records) || fresh(records)
      ensures hashNext == old(hashNext) || fresh(hashNext)
    {
      HandleEvent(target, evt, recordsOk, nextOk);
      assert |List().recs| == count;
    }

    /** The part the three kinds of return event share: fill in a record and add it. */
    method RecordReturn(evt: MemEvent, addr: u64, size: u64, pcs: KernelPcs, recordsOk: bool, nextOk: bool)
      requires Valid() && CopyInBounds(evt)
      requires IsAllocation(evt.payload)
      requires evt.payload.addr == addr && evt.payload.size == size && evt.payload.pcs == pcs
      modifies this, records, hashBuckets, hashNext
      ensures count <= records.Length
      ensures old(count) <= MAX_INT || count == old(count) ==> Valid()
      ensures List() == old(List()).Add(RecordOf(evt), recordsOk && nextOk)
      ensures hashBuckets == old(hashBuckets)
      ensures records == old(records) || fresh(records)
      ensures hashNext == old(hashNext) || fresh(hashNext)
    {
      var slots := CopyPcs(evt.stackDepth, pcs);
      var rec := AllocRecord(
        addr, size, evt.stackId, evt.timestamp, 0, evt.pid, evt.tid, true, slots, Signed32(evt.stackDepth));
      assert rec == RecordOf(evt);
      var _ := AddAllocRecord(rec, recordsOk, nextOk);
    }

    /** Drains a portion of the ring. `recordsOk[i]` and `nextOk[i]` say whether memory is found while event `i`
        is handled. */
    method Poll(target: u32, evts: seq<MemEvent>, recordsOk: seq<bool>, nextOk: seq<bool>)
      requires Valid()
      requires forall e <- evts :: CopyInBounds(e)
      requires |recordsOk| == |evts| == |nextOk|
      requires count + |evts| <= MAX_INT + 1
      modifies this, records, hashBuckets, hashNext
      ensures Valid() && List() == ReplayBounded(target, old(List()), evts, Both(recordsOk, nextOk))
      ensures hashBuckets == old(hashBuckets)
    {
      ghost var start, memory := List(), Both(recordsOk, nextOk);
      var i := 0;
      while i < |evts|
        invariant 0 <= i <= |evts|
        invariant Valid() && count + |evts| - i <= MAX_INT + 1
        invariant hashBuckets == old(hashBuckets)
        invariant records == old(records) || fresh(records)
        invariant hashNext == old(hashNext) || fresh(hashNext)
        invariant List() == ReplayBounded(target, start, evts[..i], memory[..i])
      {
        HandleNext(target, evts[i], recordsOk[i], nextOk[i]);
        BoundedOneMore(target, start, evts, memory, i);
        i := i + 1;
      }
      assert evts[..i] == evts && memory[..i] == memory;
    }
  }

  /** Sets the links from `lo` up to `hi` to -1. */
  method Unlink(links: array<int>, lo: nat, hi: nat)
    requires lo <= hi <= links.Length
    modifies links
    ensures links[..lo] == old(links[..lo])
    ensures forall k :: lo <= k < hi ==> links[k] == -1
  {
    var i := lo;
    while i < hi
      invariant lo <= i <= hi
      invariant links[..lo] == old(links[..lo])
      invariant forall k :: lo <= k < i ==> links[k] == -1
    {
      links[i] := -1;
      i := i + 1;
    }
  }

  /** A `realloc` that succeeds: the first `kept` elements move to the new, longer array. */
  method Realloc<T(0)>(a: array<T>, kept: nat, size: nat) returns (b: array<T>)
    requires kept <= a.Length && kept <= size
    ensures fresh(b) && b.Length == size && b[..kept] == a[..kept]
  {
    b := new T[size];
    forall i | 0 <= i < kept { b[i] := a[i]; }
  }

  /** `memcpy` of the stack into a record whose slots start out zero. */
  method CopyPcs(depth: u32, pcs: KernelPcs) returns (slots: CollectorPcs)
    requires depth <= KERNEL_SLOTS
    ensures slots == pcs[..depth] + Zeros(COLLECTOR_SLOTS - depth)
  {
    slots := Zeros(COLLECTOR_SLOTS);
    if 0 < depth <= COLLECTOR_SLOTS {
      slots := pcs[..depth] + slots[depth..];
    }
  }
}
