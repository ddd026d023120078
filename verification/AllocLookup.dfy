/** Which allocation an address belongs to: the resolver's backward scan from the upper bound. */
module AllocLookup {
  import opened Words
  import opened SortedSearch
  import opened CsvBridge

  function Addresses(allocs: seq<AllocEntry>): (keys: seq<u64>)
    ensures |keys| == |allocs|
  {
    seq(|allocs|, i requires 0 <= i < |allocs| => allocs[i].addr)
  }

  predicate SortedByAddress(allocs: seq<AllocEntry>) {
    Ascending(Addresses(allocs))
  }

  /** What `std::sort` promises; entries with equal addresses may end up in any order. */
  ghost predicate IsSortOf(sorted: seq<AllocEntry>, allocs: seq<AllocEntry>) {
    SortedByAddress(sorted) && multiset(sorted) == multiset(allocs)
  }

  lemma InsertSorted(allocs: seq<AllocEntry>, e: AllocEntry)
    requires SortedByAddress(allocs)
    ensures var k := UpperBound(Addresses(allocs), e.addr);
      var longer := allocs[..k] + [e] + allocs[k..];
      SortedByAddress(longer) && multiset(longer) == multiset(allocs) + multiset{e}
  {
    var keys := Addresses(allocs);
    var k := UpperBound(keys, e.addr);
    InsertKey(keys, e.addr, k);
    InsertAddress(allocs, e, k);
    InsertOne(allocs, e, k);
  }

  lemma AddressesOfParts(xs: seq<AllocEntry>, ys: seq<AllocEntry>)
    ensures Addresses(xs + ys) == Addresses(xs) + Addresses(ys)
  {
  }

  lemma InsertAddress(allocs: seq<AllocEntry>, e: AllocEntry, k: nat)
    requires k <= |allocs|
    ensures Addresses(allocs[..k] + [e] + allocs[k..]) == Addresses(allocs)[..k] + [e.addr] + Addresses(allocs)[k..]
  {
    AddressesOfParts(allocs[..k] + [e], allocs[k..]);
    AddressesOfParts(allocs[..k], [e]);
    assert Addresses([e]) == [e.addr];
    assert Addresses(allocs[..k]) == Addresses(allocs)[..k];
    assert Addresses(allocs[k..]) == Addresses(allocs)[k..];
  }

  lemma InsertKey(keys: seq<u64>, v: u64, k: nat)
    requires Ascending(keys) && k <= |keys|
    requires (forall i :: 0 <= i < k ==> keys[i] <= v) && (forall i :: k <= i < |keys| ==> v < keys[i])
    ensures Ascending(keys[..k] + [v] + keys[k..])
  {
  }

  lemma InsertOne(allocs: seq<AllocEntry>, e: AllocEntry, k: nat)
    requires k <= |allocs|
    ensures multiset(allocs[..k] + [e] + allocs[k..]) == multiset(allocs) + multiset{e}
  {
    assert allocs == allocs[..k] + allocs[k..];
  }

  lemma {:induction false} SortExists(allocs: seq<AllocEntry>) returns (sorted: seq<AllocEntry>)
    ensures IsSortOf(sorted, allocs)
  {
    if allocs == [] {
      return [];
    }
    var n := |allocs| - 1;
    var init := SortExists(allocs[..n]);
    var k := UpperBound(Addresses(init), allocs[n].addr);
    InsertSorted(init, allocs[n]);
    assert allocs == allocs[..n] + [allocs[n]];
    return init[..k] + [allocs[n]] + init[k..];
  }

  /** Stands for `std::sort`: all that is used of it is that the result is a sorted permutation. */
  method SortByAddress(allocs: seq<AllocEntry>) returns (sorted: seq<AllocEntry>)
    ensures IsSortOf(sorted, allocs)
  {
    sorted := [];
    var i := 0;
    while i < |allocs|
      invariant 0 <= i <= |allocs|
      invariant IsSortOf(sorted, allocs[..i])
    {
      InsertSorted(sorted, allocs[i]);
      assert allocs[..i + 1] == allocs[..i] + [allocs[i]];
      var k := UpperBound(Addresses(sorted), allocs[i].addr);
      sorted := sorted[..k] + [allocs[i]] + sorted[k..];
      i := i + 1;
    }
    assert allocs[..i] == allocs;
  }

  /** `addr + size`, as the code computes it. */
  function End(a: AllocEntry): u64 {
    Wrap64(a.addr + a.size)
  }

  predicate Contains(a: AllocEntry, addr: u64) {
    a.addr <= addr < End(a)
  }

  /** Containment rules wrap-around out: the offset is a true one. */
  lemma ContainedOffset(a: AllocEntry, addr: u64)
    ensures Contains(a, addr) <==> a.addr <= addr < a.addr + a.size < TWO64
  {
  }

  /** All records from `i` up to the upper bound contain the address. */
  predicate CoveringRun(allocs: seq<AllocEntry>, addr: u64, i: nat, ub: nat)
    requires ub <= |allocs|
  {
    forall j :: i <= j < ub ==> Contains(allocs[j], addr)
  }

  /** `r` is the rightmost live record of the longest run of containing records that ends at the upper bound. */
  predicate IsFound(allocs: seq<AllocEntry>, addr: u64, r: Option<nat>)
    requires SortedByAddress(allocs)
  {
    var ub := UpperBound(Addresses(allocs), addr);
    match r
    case Some(i) =>
      && i < ub && allocs[i].live && CoveringRun(allocs, addr, i, ub)
      && forall j :: i < j < ub ==> !allocs[j].live
    case None =>
      forall i :: 0 <= i < ub && CoveringRun(allocs, addr, i, ub) ==> !allocs[i].live
  }

  lemma FoundIsUnique(allocs: seq<AllocEntry>, addr: u64, r: Option<nat>, r': Option<nat>)
    requires SortedByAddress(allocs) && IsFound(allocs, addr, r) && IsFound(allocs, addr, r')
    ensures r == r'
  {
  }

  /** The scan of `find_alloc`; `None` stands for the null pointer. */
  method ScanBack(allocs: seq<AllocEntry>, addr: u64) returns (r: Option<nat>)
    requires SortedByAddress(allocs)
    ensures IsFound(allocs, addr, r)
  {
    ghost var keys := Addresses(allocs);
    var ub := UpperBound(Addresses(allocs), addr);
    var it := ub;
    while it != 0
      invariant 0 <= it <= ub
      invariant CoveringRun(allocs, addr, it, ub)
      invariant forall j :: it <= j < ub ==> !allocs[j].live
      decreases it
    {
      it := it - 1;
      assert keys[it] <= addr;
      if allocs[it].addr <= addr && addr < End(allocs[it]) {
        if allocs[it].live {
          return Some(it);
        }
      }
      if addr >= End(allocs[it]) {
        assert forall i :: 0 <= i <= it ==> !CoveringRun(allocs, addr, i, ub) by {
          assert !Contains(allocs[it], addr);
        }
        return None;
      }
    }
    return None;
  }

  // ----- against a full linear scan -----

  predicate IsLiveOwner(allocs: seq<AllocEntry>, addr: u64, i: nat) {
    i < |allocs| && allocs[i].live && Contains(allocs[i], addr)
  }

  lemma OwnerBelowUpperBound(allocs: seq<AllocEntry>, addr: u64, i: nat)
    requires SortedByAddress(allocs) && i < |allocs| && allocs[i].addr <= addr
    ensures i < UpperBound(Addresses(allocs), addr)
  {
    assert Addresses(allocs)[i] <= addr;
  }

  lemma FoundAtOwner(allocs: seq<AllocEntry>, addr: u64, owner: nat)
    requires SortedByAddress(allocs) && IsLiveOwner(allocs, addr, owner)
    requires forall j :: owner < j < UpperBound(Addresses(allocs), addr) ==> addr < End(allocs[j]) && !allocs[j].live
    ensures IsFound(allocs, addr, Some(owner))
  {
    var ub := UpperBound(Addresses(allocs), addr);
    OwnerBelowUpperBound(allocs, addr, owner);
    forall j | owner <= j < ub ensures Contains(allocs[j], addr) {
      assert Addresses(allocs)[j] <= addr;
    }
    assert CoveringRun(allocs, addr, owner, ub);
  }

  /** The scan finds a given live owner exactly when every record between it and the upper bound is dead and
      still reaches past the address. It never finds an earlier one. */
  lemma FindsOwnerIff(allocs: seq<AllocEntry>, addr: u64, owner: nat, r: Option<nat>)
    requires SortedByAddress(allocs) && IsLiveOwner(allocs, addr, owner) && IsFound(allocs, addr, r)
    ensures r == Some(owner) <==>
      forall j :: owner < j < UpperBound(Addresses(allocs), addr) ==> addr < End(allocs[j]) && !allocs[j].live
    ensures r.Some? ==> owner <= r.value && IsLiveOwner(allocs, addr, r.value)
  {
    var ub := UpperBound(Addresses(allocs), addr);
    OwnerBelowUpperBound(allocs, addr, owner);
    if forall j :: owner < j < ub ==> addr < End(allocs[j]) && !allocs[j].live {
      FoundAtOwner(allocs, addr, owner);
      FoundIsUnique(allocs, addr, r, Some(owner));
    }
  }

  /** No owner, no answer: whatever the scan returns is live and contains the address. */
  lemma FoundIsOwner(allocs: seq<AllocEntry>, addr: u64, r: Option<nat>)
    requires SortedByAddress(allocs) && IsFound(allocs, addr, r)
    ensures r.Some? ==> IsLiveOwner(allocs, addr, r.value)
    ensures (forall i: nat :: !IsLiveOwner(allocs, addr, i)) ==> r == None
  {
    if r.Some? {
      assert IsLiveOwner(allocs, addr, r.value);
    }
  }

  /** The condition matters: a freed 8-byte record inside a later, larger live block hides the block
      from every address past it. */
  lemma FreedRecordHidesOwner(live: AllocEntry, dead: AllocEntry, r: Option<nat>)
    requires live.live && live.addr == 0x1000 && live.size == 0x100
    requires !dead.live && dead.addr == 0x1010 && dead.size == 8
    ensures SortedByAddress([live, dead]) && IsLiveOwner([live, dead], 0x1080, 0)
    ensures IsFound([live, dead], 0x1080, None)
  {
  }

  /** Of two live records at one address, as an in-place `realloc` leaves them, the scan takes the one that the
      sort puts last, be it the stale one. */
  lemma LastOfTwoAnswers(first: AllocEntry, last: AllocEntry, addr: u64)
    requires first.addr == last.addr && last.live && Contains(last, addr)
    ensures SortedByAddress([first, last]) && IsFound([first, last], addr, Some(1))
  {
  }

  /** For instance a stale record of 16 bytes in place of the allocation of 32 bytes. */
  lemma StaleRecordAnswers(current: AllocEntry, stale: AllocEntry)
    requires current.live && current.addr == 0x1000 && current.size == 32
    requires stale.live && stale.addr == 0x1000 && stale.size == 16
    ensures IsLiveOwner([current, stale], 0x1004, 0) && forall j :: 0 < j < 2 ==> 0x1004 < End([current, stale][j])
    ensures SortedByAddress([current, stale]) && IsFound([current, stale], 0x1004, Some(1))
  {
    LastOfTwoAnswers(current, stale, 0x1004);
  }
}
