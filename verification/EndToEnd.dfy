/** The whole path: probes, ring, collector table, CSV file, sorted table, and the resolver's answer. */
module EndToEnd {
  import opened Words
  import opened Replay
  import opened Probes
  import opened Protocol
  import opened CsvBridge
  import opened AllocLookup
  import opened TypeInference
  import opened AddressResolver
  import opened Dwarf
  import Globals
  import SortedSearch

  /** What the kernel holds to be allocated after a run. */
  function Active(target: u32, steps: seq<Step>): map<u64, Probes.AllocInfo> {
    Run(target, steps).kernel.active
  }

  /** What the resolver loads from the collector's file after a drained run. */
  function Loaded(target: u32, steps: seq<Step>): seq<AllocEntry> {
    ParseCsv(CsvText(Drained(target, Run(target, steps))))
  }

  /** The entry carries what the kernel knows about the allocation at `a`. */
  predicate Describes(e: AllocEntry, a: u64, info: Probes.AllocInfo) {
    && e.addr == a && e.live && e.size == info.size
    && e.pid == info.pid && e.tid == info.tid && e.stackId == info.stackId
  }

  // ----- every active allocation reaches the sorted table -----

  lemma SortKeepsEntries(sorted: seq<AllocEntry>, entries: seq<AllocEntry>, k: nat) returns (i: nat)
    requires IsSortOf(sorted, entries) && k < |entries|
    ensures i < |sorted| && sorted[i] == entries[k]
  {
    assert entries[k] in multiset(entries);
    assert entries[k] in sorted;
    i :| 0 <= i < |sorted| && sorted[i] == entries[k];
  }

  /** A collector table that agrees with the kernel's map hands every active allocation on: some entry of the
      resolver's sorted table, that of the newest live record, describes it. */
  lemma AgreedReachesTable(
      target: u32, recs: seq<AllocRecord>, active: map<u64, Probes.AllocInfo>, sorted: seq<AllocEntry>, a: u64)
    returns (owner: nat)
    requires Agrees(target, recs, active) && a in active && Accepts(target, active[a].pid)
    requires IsSortOf(sorted, EntriesOf(recs))
    ensures owner < |sorted| && Describes(sorted[owner], a, active[a])
    ensures NewestLive(recs, a) >= 0 && sorted[owner] == EntryOf(recs[NewestLive(recs, a)])
  {
    var k := NewestLive(recs, a);
    assert EntriesOf(recs)[k] == EntryOf(recs[k]);
    owner := SortKeepsEntries(sorted, EntriesOf(recs), k);
  }

  /** A row prints the PCs of the event its record was made from. */
  lemma PrintedPcsOfEvent(e: MemEvent)
    requires IsAllocation(e.payload) && CopyInBounds(e)
    ensures PrintedPcs(RecordOf(e)) == e.payload.pcs[..e.stackDepth]
  {
    var r := RecordOf(e);
    assert r.stackDepth == e.stackDepth;
    assert r.stackPcs[..e.stackDepth] == e.payload.pcs[..e.stackDepth];
  }

  /** The newest record of an active address comes from the return that opened the allocation, and its entry
      carries the nonzero PCs the entry probe of that return captured. */
  lemma StackOfNewest(target: u32, steps: seq<Step>, a: u64) returns (n: nat)
    requires a in Active(target, steps) && Accepts(target, Active(target, steps)[a].pid)
    ensures IsOpening(steps, n, a)
    ensures var recs := Drained(target, Run(target, steps));
      NewestLive(recs, a) >= 0 && EntryOf(recs[NewestLive(recs, a)]).stackPcs == NonZero(EntryPcs(steps, n, a))
  {
    DrainedView(target, steps, a);
    var e;
    n, e := ActiveIsOpened(target, steps, a);
    var e' := OpeningEvent(steps, n, a);
    assert [e] == [e'];
    PrintedPcsOfEvent(e);
  }

  /** After every run, every active allocation is described by an entry of the sorted table, which carries the
      call stack of the probe that opened it. */
  lemma ActiveReachesTable(target: u32, steps: seq<Step>, sorted: seq<AllocEntry>, a: u64) returns (owner: nat, n: nat)
    requires a in Active(target, steps) && Accepts(target, Active(target, steps)[a].pid)
    requires IsSortOf(sorted, Loaded(target, steps))
    ensures owner < |sorted| && Describes(sorted[owner], a, Active(target, steps)[a])
    ensures IsOpening(steps, n, a) && sorted[owner].stackPcs == NonZero(EntryPcs(steps, n, a))
  {
    var sys := Run(target, steps);
    ReplayAgreement(target, steps);
    CsvRoundTrip(Drained(target, sys));
    owner := AgreedReachesTable(target, Drained(target, sys), sys.kernel.active, sorted, a);
    n := StackOfNewest(target, steps, a);
  }

  // ----- which of them the resolver finds -----

  /** The address lies in the allocation at `a`. */
  predicate Holds(a: u64, info: Probes.AllocInfo, address: u64) {
    a <= address < a + info.size < TWO64
  }

  /** Every entry between the owner and the upper bound reaches past the address. */
  ghost predicate AllReachPast(sorted: seq<AllocEntry>, address: u64, owner: nat)
    requires SortedByAddress(sorted)
  {
    forall j :: owner < j < SortedSearch.UpperBound(Addresses(sorted), address) ==> address < End(sorted[j])
  }

  ghost predicate AllDead(sorted: seq<AllocEntry>, address: u64, owner: nat)
    requires SortedByAddress(sorted)
  {
    forall j :: owner < j < SortedSearch.UpperBound(Addresses(sorted), address) ==> !sorted[j].live
  }

  /** For every run, every active allocation and every address inside it: the scan finds that allocation exactly
      when every entry between it and the upper bound is dead and reaches past the address. What it finds otherwise
      is a later live entry. */
  lemma ActiveIsScanned(target: u32, steps: seq<Step>, sorted: seq<AllocEntry>, a: u64, address: u64, r: Option<nat>)
    returns (owner: nat, n: nat)
    requires a in Active(target, steps) && Accepts(target, Active(target, steps)[a].pid)
    requires Holds(a, Active(target, steps)[a], address)
    requires IsSortOf(sorted, Loaded(target, steps)) && IsFound(sorted, address, r)
    ensures owner < |sorted| && Describes(sorted[owner], a, Active(target, steps)[a])
    ensures IsOpening(steps, n, a) && sorted[owner].stackPcs == NonZero(EntryPcs(steps, n, a))
    ensures r == Some(owner) <==> AllReachPast(sorted, address, owner) && AllDead(sorted, address, owner)
    ensures r.Some? ==> owner <= r.value && IsLiveOwner(sorted, address, r.value)
  {
    owner, n := ActiveReachesTable(target, steps, sorted, a);
    ContainedOffset(sorted[owner], address);
    FindsOwnerIff(sorted, address, owner, r);
  }

  /** The answer is the heap answer for the allocation: its type is inferred from the kernel's size and the nonzero
      PCs that the opening probe captured, or, if it captured none, those the stack map has for the kernel's stack
      id; its field lies where the address lies in the allocation, or in its element of an array. */
  ghost predicate IsAnswerFor(
      b: Binary, stackMap: i64 -> seq<u64>, alloc: AllocEntry, info: Probes.AllocInfo, pcs: seq<u64>,
      address: u64, r: ResolvedAddress)
  {
    var stack :=
      if NonZero(pcs) != [] then NonZero(pcs) else if info.stackId <= 0 then [] else stackMap(info.stackId);
    var inferred := Infer(b, info.size, stack);
    var t := TypeNamed(b.types, inferred.typeName);
    && alloc.addr <= address && r.Heap? && r.address == address
    && r.size == info.size && r.pid == info.pid && r.tid == info.tid
    && r.typeName == inferred.typeName && r.how == inferred.how
    && IsHeapAnswer(b.types, alloc, address, inferred, r)
    && if inferred.allocCount > 1 && t.Some? && t.value.byteSize > 0 then
         IsElementField(b.types, inferred.typeName, t.value.byteSize, alloc.addr, address, r.field)
       else IsObjectField(b.types, inferred.typeName, alloc.addr, address, r.field)
  }

  lemma HeapResultIsAnswer(
      b: Binary, stackMap: i64 -> seq<u64>, alloc: AllocEntry, info: Probes.AllocInfo, pcs: seq<u64>,
      address: u64, r: ResolvedAddress)
    requires Describes(alloc, alloc.addr, info) && alloc.stackPcs == NonZero(pcs)
    requires IsHeapResult(b, stackMap, alloc, address, r)
    ensures IsAnswerFor(b, stackMap, alloc, info, pcs, address, r)
  {
    HeapAnswerMeaning(b, stackMap, alloc, address, r);
  }

  /** For every run, every active allocation, every address inside it and every binary: the resolver's answer is
      about that allocation exactly when the address is not taken for a global's, and every entry between the
      allocation and the upper bound is dead and reaches past the address. */
  lemma ActiveIsResolved(
      target: u32, steps: seq<Step>, b: Binary, stackMap: i64 -> seq<u64>, sorted: seq<AllocEntry>,
      a: u64, address: u64, frames: seq<u64>, r: ResolvedAddress, used: Option<nat>)
    returns (owner: nat, n: nat)
    requires a in Active(target, steps) && Accepts(target, Active(target, steps)[a].pid)
    requires Holds(a, Active(target, steps)[a], address)
    requires IsSortOf(sorted, Loaded(target, steps))
    requires IsResolution(b, stackMap, sorted, address, frames, r, used)
    ensures owner < |sorted| && Describes(sorted[owner], a, Active(target, steps)[a]) && IsOpening(steps, n, a)
    ensures used == Some(owner) <==>
      !Globals.IsClaimed(b.symbols, address) && AllReachPast(sorted, address, owner) && AllDead(sorted, address, owner)
    ensures used == Some(owner) ==>
      IsAnswerFor(b, stackMap, sorted[owner], Active(target, steps)[a], EntryPcs(steps, n, a), address, r)
    ensures used == Some(owner) && NonZero(EntryPcs(steps, n, a)) != [] ==>
      IsHeapAnswer(
        b.types, sorted[owner], address, Infer(b, Active(target, steps)[a].size, NonZero(EntryPcs(steps, n, a))), r)
    ensures r.Global? <==> Globals.IsClaimed(b.symbols, address)
  {
    AnswerClass(b, stackMap, sorted, address, frames, r, used);
    if Globals.IsClaimed(b.symbols, address) {
      owner, n := ActiveReachesTable(target, steps, sorted, a);
    } else {
      owner, n := ActiveIsScanned(target, steps, sorted, a, address, used);
      if used == Some(owner) {
        HeapResultIsAnswer(b, stackMap, sorted[owner], Active(target, steps)[a], EntryPcs(steps, n, a), address, r);
      }
    }
  }

  /** The first condition matters: whatever is allocated there, 0x5555_5555_90a0 is taken for a global's in a binary
      with one object of 0x100 bytes at 0x4020. */
  lemma HeapAddressTakenForGlobal(
      b: Binary, stackMap: i64 -> seq<u64>, sorted: seq<AllocEntry>, frames: seq<u64>,
      g: SymbolInfo, r: ResolvedAddress, used: Option<nat>)
    requires b.symbols == [g] && g.address == 0x4020 && g.size == 0x100 && g.kind == ObjectSymbol
    requires SortedByAddress(sorted) && IsResolution(b, stackMap, sorted, 0x5555_5555_90a0, frames, r, used)
    ensures r.Global? && used == None
  {
    Globals.HeapAddressIsClaimed(g);
    AnswerClass(b, stackMap, sorted, 0x5555_5555_90a0, frames, r, used);
  }

  /** The last condition matters: after a `malloc` of 16 bytes and an in-place `realloc` to 32 the table holds both
      records at one address. Both orders are sorted, so whether the resolver answers with the 32 bytes the
      kernel knows or with the stale 16 is up to `std::sort`. */
  lemma SortDecidesAfterInPlaceRealloc(p: u64, a: u64, c: StackCapture, address: u64)
    returns (stale: AllocEntry, current: AllocEntry)
    requires a != 0 && a + 32 < TWO64 && a <= address < a + 16
    ensures var steps := InPlaceRealloc(p, a, c)[..4];
      && a in Active(0, steps) && Active(0, steps)[a].size == 32 == current.size && stale.size == 16
      && IsSortOf([stale, current], Loaded(0, steps)) && IsFound([stale, current], address, Some(1))
      && IsSortOf([current, stale], Loaded(0, steps)) && IsFound([current, stale], address, Some(1))
  {
    InPlaceReallocDoubles(p, a, c);
    stale, current := TwoEntries(Drained(0, Run(0, InPlaceRealloc(p, a, c)[..4])));
    BothOrders(stale, current, address);
  }

  lemma TwoEntries(recs: seq<AllocRecord>) returns (first: AllocEntry, second: AllocEntry)
    requires |recs| == 2
    ensures first == EntryOf(recs[0]) && second == EntryOf(recs[1]) && ParseCsv(CsvText(recs)) == [first, second]
  {
    CsvRoundTrip(recs);
    first, second := EntryOf(recs[0]), EntryOf(recs[1]);
    assert EntriesOf(recs)[0] == first && EntriesOf(recs)[1] == second;
  }

  lemma BothOrders(e: AllocEntry, f: AllocEntry, address: u64)
    requires e.addr == f.addr && e.live && f.live && Contains(e, address) && Contains(f, address)
    ensures IsSortOf([e, f], [e, f]) && IsFound([e, f], address, Some(1))
    ensures IsSortOf([f, e], [e, f]) && IsFound([f, e], address, Some(1))
  {
    assert multiset([f, e]) == multiset([e, f]);
    LastOfTwoAnswers(e, f, address);
    LastOfTwoAnswers(f, e, address);
  }

  // ----- runs without reuse of active addresses -----

  /** Two positions of a permutation come from two positions. */
  lemma TwoSources<T>(s: seq<T>, t: seq<T>, i: nat, j: nat) returns (k: nat, l: nat)
    requires multiset(s) == multiset(t) && i < |s| && j < |s| && i != j
    ensures k < |t| && l < |t| && k != l && t[k] == s[i] && t[l] == s[j]
  {
    assert s[i] in multiset(t) && s[j] in multiset(t);
    if s[i] == s[j] {
      TwiceIn(s, if i < j then i else j, if i < j then j else i);
      k, l := FindTwo(t, s[i]);
    } else {
      k :| 0 <= k < |t| && t[k] == s[i];
      l :| 0 <= l < |t| && t[l] == s[j];
    }
  }

  lemma TwiceIn<T>(s: seq<T>, i: nat, j: nat)
    requires i < j < |s| && s[i] == s[j]
    ensures multiset(s)[s[i]] >= 2
  {
    assert s == s[..j] + s[j..];
    assert s[..j][i] == s[i] && s[j..][0] == s[i];
    assert s[i] in s[..j] && s[i] in s[j..];
  }

  lemma FindTwo<T>(s: seq<T>, v: T) returns (k: nat, l: nat)
    requires multiset(s)[v] >= 2
    ensures k < |s| && l < |s| && k != l && s[k] == v == s[l]
  {
    assert v in s;
    k :| 0 <= k < |s| && s[k] == v;
    assert s == s[..k] + [v] + s[k + 1..];
    if v in s[..k] {
      l :| 0 <= l < k && s[..k][l] == v;
    } else {
      assert multiset(s[..k])[v] == 0;
      assert v in multiset(s[k + 1..]);
      var m :| 0 <= m < |s[k + 1..]| && s[k + 1..][m] == v;
      l := k + 1 + m;
    }
  }

  lemma {:induction false} LiveIsListed(recs: seq<AllocRecord>, k: nat, a: u64)
    requires k < |recs| && LiveAt(recs[k], a)
    ensures recs[k] in LiveRecords(recs, a)
  {
    if k < |recs| - 1 { LiveIsListed(recs[..|recs| - 1], k, a); }
  }

  lemma {:induction false} TwoLive(recs: seq<AllocRecord>, k: nat, l: nat, a: u64)
    requires k < l < |recs| && LiveAt(recs[k], a) && LiveAt(recs[l], a)
    ensures |LiveRecords(recs, a)| >= 2
  {
    if l < |recs| - 1 {
      TwoLive(recs[..|recs| - 1], k, l, a);
    } else {
      LiveIsListed(recs[..|recs| - 1], k, a);
    }
  }

  /** A table that holds one matching live record at each active address and no other live record. */
  ghost predicate Simulates(recs: seq<AllocRecord>, active: map<u64, Probes.AllocInfo>) {
    forall a: u64 ::
      var live := LiveRecords(recs, a);
      if a in active then |live| == 1 && Matches(live[0], active[a]) else live == []
  }

  /** In such a table only an entry of an active allocation that holds the address can own it. */
  lemma OwnersAreActive(recs: seq<AllocRecord>, active: map<u64, Probes.AllocInfo>, k: nat, address: u64)
    requires Simulates(recs, active) && k < |recs| && recs[k].live && Contains(EntryOf(recs[k]), address)
    ensures recs[k].addr in active && Holds(recs[k].addr, active[recs[k].addr], address)
  {
    LiveIsListed(recs, k, recs[k].addr);
    ContainedOffset(EntryOf(recs[k]), address);
  }

  /** So there is at most one owner when no other active allocation holds the address. */
  lemma OneOwner(
      recs: seq<AllocRecord>, active: map<u64, Probes.AllocInfo>, sorted: seq<AllocEntry>, a: u64, address: u64,
      i: nat, j: nat)
    requires Simulates(recs, active) && IsSortOf(sorted, EntriesOf(recs))
    requires forall b <- active :: Holds(b, active[b], address) ==> b == a
    requires IsLiveOwner(sorted, address, i) && IsLiveOwner(sorted, address, j)
    ensures i == j
  {
    if i != j {
      var k, l := TwoSources(sorted, EntriesOf(recs), i, j);
      OwnersAreActive(recs, active, k, address);
      OwnersAreActive(recs, active, l, address);
      TwoLive(recs, if k < l then k else l, if k < l then l else k, a);
    }
  }

  lemma LoadedFromSimulation(steps: seq<Step>)
    requires Disciplined(steps)
    ensures Simulates(Drained(0, Run(0, steps)), Active(0, steps))
    ensures Loaded(0, steps) == EntriesOf(Drained(0, Run(0, steps)))
  {
    forall a: u64
      ensures var live := LiveRecords(Drained(0, Run(0, steps)), a);
        if a in Active(0, steps) then |live| == 1 && Matches(live[0], Active(0, steps)[a]) else live == []
    {
      DisciplinedSimulation(steps, a);
    }
    CsvRoundTrip(Drained(0, Run(0, steps)));
  }

  /** No active allocation but the one at `a` holds the address. */
  ghost predicate OnlyHolder(active: map<u64, Probes.AllocInfo>, a: u64, address: u64) {
    && a in active && Holds(a, active[a], address)
    && forall b <- active :: Holds(b, active[b], address) ==> b == a
  }

  /** So no entry between a sole owner and the upper bound is live if it reaches past the address. */
  lemma SoleOwner(sorted: seq<AllocEntry>, address: u64, owner: nat)
    requires SortedByAddress(sorted) && forall j: nat :: IsLiveOwner(sorted, address, j) ==> j == owner
    ensures AllReachPast(sorted, address, owner) ==> AllDead(sorted, address, owner)
  {
    forall j | owner < j < SortedSearch.UpperBound(Addresses(sorted), address) && address < End(sorted[j])
      ensures !sorted[j].live
    {
      assert Addresses(sorted)[j] <= address;
      assert !IsLiveOwner(sorted, address, j);
    }
  }

  /** If no return yields an active address, and no other active allocation holds the address, the answer is about
      the allocation when the address is not taken for a global's and every later entry up to the upper bound reaches
      past it, and about no allocation otherwise. */
  lemma DisciplinedIsResolved(
      steps: seq<Step>, b: Binary, stackMap: i64 -> seq<u64>, sorted: seq<AllocEntry>,
      a: u64, address: u64, frames: seq<u64>, r: ResolvedAddress, used: Option<nat>)
    returns (owner: nat, n: nat)
    requires Disciplined(steps) && OnlyHolder(Active(0, steps), a, address)
    requires IsSortOf(sorted, Loaded(0, steps))
    requires IsResolution(b, stackMap, sorted, address, frames, r, used)
    ensures owner < |sorted| && Describes(sorted[owner], a, Active(0, steps)[a]) && IsOpening(steps, n, a)
    ensures used ==
      if !Globals.IsClaimed(b.symbols, address) && AllReachPast(sorted, address, owner) then Some(owner) else None
    ensures used == Some(owner) ==>
      IsAnswerFor(b, stackMap, sorted[owner], Active(0, steps)[a], EntryPcs(steps, n, a), address, r)
    ensures used == Some(owner) && NonZero(EntryPcs(steps, n, a)) != [] ==>
      IsHeapAnswer(
        b.types, sorted[owner], address, Infer(b, Active(0, steps)[a].size, NonZero(EntryPcs(steps, n, a))), r)
  {
    owner, n := ActiveIsResolved(0, steps, b, stackMap, sorted, a, address, frames, r, used);
    ContainedOffset(sorted[owner], address);
    LoadedFromSimulation(steps);
    forall j: nat | IsLiveOwner(sorted, address, j) ensures j == owner {
      OneOwner(Drained(0, Run(0, steps)), Active(0, steps), sorted, a, address, owner, j);
    }
    SoleOwner(sorted, address, owner);
    if !Globals.IsClaimed(b.symbols, address) {
      FoundIsOwner(sorted, address, used);
    }
  }

  // ----- whatever the sort does with equal addresses -----

  /** The scan finds an entry that describes the allocation. */
  ghost predicate FindsActive(sorted: seq<AllocEntry>, address: u64, a: u64, info: Probes.AllocInfo)
    requires SortedByAddress(sorted)
  {
    exists i: nat :: i < |sorted| && IsFound(sorted, address, Some(i)) && Describes(sorted[i], a, info)
  }

  /** No record that starts in the allocation, at or below the address, ends at or below it. */
  predicate NothingEndsBefore(recs: seq<AllocRecord>, a: u64, address: u64) {
    forall k :: 0 <= k < |recs| && a <= recs[k].addr <= address ==> address < End(EntryOf(recs[k]))
  }

  lemma OwnerOfActive(recs: seq<AllocRecord>, active: map<u64, Probes.AllocInfo>, a: u64, address: u64) returns (k: nat)
    requires Simulates(recs, active) && OnlyHolder(active, a, address)
    ensures k < |recs| && Describes(EntryOf(recs[k]), a, active[a]) && Contains(EntryOf(recs[k]), address)
  {
    k := NewestLive(recs, a);
    ContainedOffset(EntryOf(recs[k]), address);
  }

  lemma SortAddsNothing(sorted: seq<AllocEntry>, entries: seq<AllocEntry>, i: nat) returns (k: nat)
    requires IsSortOf(sorted, entries) && i < |sorted|
    ensures k < |entries| && entries[k] == sorted[i]
  {
    assert sorted[i] in multiset(sorted);
    assert sorted[i] in entries;
    k :| 0 <= k < |entries| && entries[k] == sorted[i];
  }

  lemma EverySortFinds(
      recs: seq<AllocRecord>, active: map<u64, Probes.AllocInfo>, sorted: seq<AllocEntry>, a: u64, address: u64)
    requires Simulates(recs, active) && OnlyHolder(active, a, address) && NothingEndsBefore(recs, a, address)
    requires IsSortOf(sorted, EntriesOf(recs))
    ensures FindsActive(sorted, address, a, active[a])
  {
    var k := OwnerOfActive(recs, active, a, address);
    var owner := SortKeepsEntries(sorted, EntriesOf(recs), k);
    forall j | owner < j < SortedSearch.UpperBound(Addresses(sorted), address) ensures address < End(sorted[j]) {
      assert Addresses(sorted)[owner] <= Addresses(sorted)[j] <= address;
      var l := SortAddsNothing(sorted, EntriesOf(recs), j);
      assert sorted[j] == EntryOf(recs[l]);
    }
    forall j: nat | IsLiveOwner(sorted, address, j) ensures j == owner {
      OneOwner(recs, active, sorted, a, address, owner, j);
    }
    SoleOwner(sorted, address, owner);
    FoundAtOwner(sorted, address, owner);
  }

  /** Some sort puts an entry behind another that does not start later. */
  lemma SortedBehind(entries: seq<AllocEntry>, o: nat, k: nat) returns (sorted: seq<AllocEntry>, q: nat, p: nat)
    requires o < |entries| && k < |entries| && o != k && entries[o].addr <= entries[k].addr
    ensures IsSortOf(sorted, entries) && q < p < |sorted| && sorted[q] == entries[o] && sorted[p] == entries[k]
  {
    var e, rest := entries[k], entries[..k] + entries[k + 1..];
    var others := SortExists(rest);
    q := SortKeepsEntries(others, rest, if o < k then o else o - 1);
    p := SortedSearch.UpperBound(Addresses(others), e.addr);
    assert Addresses(others)[q] <= e.addr;
    InsertSorted(others, e);
    sorted := others[..p] + [e] + others[p..];
    assert entries == entries[..k] + [e] + entries[k + 1..];
  }

  lemma ScanIsBlocked(sorted: seq<AllocEntry>, address: u64, q: nat, p: nat)
    requires SortedByAddress(sorted) && forall j: nat :: IsLiveOwner(sorted, address, j) ==> j == q
    requires q < p < |sorted| && sorted[p].addr <= address && End(sorted[p]) <= address
    ensures IsFound(sorted, address, None)
  {
    var ub := SortedSearch.UpperBound(Addresses(sorted), address);
    OwnerBelowUpperBound(sorted, address, p);
    forall i | 0 <= i < ub && CoveringRun(sorted, address, i, ub) ensures !sorted[i].live {
      assert !Contains(sorted[p], address);
      assert i > p;
      assert !IsLiveOwner(sorted, address, i);
    }
  }

  /** A record that ends too early can be sorted behind the owner, and then nothing is found. */
  lemma SomeSortMisses(recs: seq<AllocRecord>, active: map<u64, Probes.AllocInfo>, a: u64, address: u64, k: nat)
    returns (sorted: seq<AllocEntry>)
    requires Simulates(recs, active) && OnlyHolder(active, a, address)
    requires k < |recs| && a <= recs[k].addr <= address && End(EntryOf(recs[k])) <= address
    ensures IsSortOf(sorted, EntriesOf(recs)) && IsFound(sorted, address, None)
  {
    var o := OwnerOfActive(recs, active, a, address);
    var q, p;
    sorted, q, p := SortedBehind(EntriesOf(recs), o, k);
    forall j: nat | IsLiveOwner(sorted, address, j) ensures j == q {
      OneOwner(recs, active, sorted, a, address, q, j);
    }
    ScanIsBlocked(sorted, address, q, p);
  }

  lemma EverySortFindsOrMisses(recs: seq<AllocRecord>, active: map<u64, Probes.AllocInfo>, a: u64, address: u64)
    requires Simulates(recs, active) && OnlyHolder(active, a, address)
    ensures (forall sorted :: IsSortOf(sorted, EntriesOf(recs)) ==> FindsActive(sorted, address, a, active[a])) <==>
      NothingEndsBefore(recs, a, address)
  {
    if NothingEndsBefore(recs, a, address) {
      forall sorted | IsSortOf(sorted, EntriesOf(recs)) ensures FindsActive(sorted, address, a, active[a]) {
        EverySortFinds(recs, active, sorted, a, address);
      }
    } else {
      var k :| 0 <= k < |recs| && a <= recs[k].addr <= address && End(EntryOf(recs[k])) <= address;
      var sorted := SomeSortMisses(recs, active, a, address, k);
      MissIsNoFind(sorted, address, a, active[a]);
    }
  }

  /** In such a run the scan finds the allocation whatever order the sort leaves equal addresses in, exactly when no
      record of the drained table that starts between the allocation and the address ends at or before the address. */
  lemma EverySortFindsIff(steps: seq<Step>, a: u64, address: u64)
    requires Disciplined(steps) && OnlyHolder(Active(0, steps), a, address)
    ensures
      (forall sorted :: IsSortOf(sorted, Loaded(0, steps)) ==> FindsActive(sorted, address, a, Active(0, steps)[a]))
      <==> NothingEndsBefore(Drained(0, Run(0, steps)), a, address)
  {
    LoadedFromSimulation(steps);
    EverySortFindsOrMisses(Drained(0, Run(0, steps)), Active(0, steps), a, address);
  }

  lemma MissIsNoFind(sorted: seq<AllocEntry>, address: u64, a: u64, info: Probes.AllocInfo)
    requires SortedByAddress(sorted) && IsFound(sorted, address, None)
    ensures !FindsActive(sorted, address, a, info)
  {
    if i: nat :| i < |sorted| && IsFound(sorted, address, Some(i)) {
      FoundIsUnique(sorted, address, Some(i), None);
    }
  }
}
