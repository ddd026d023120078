/** From an address to a field of a type: the resolver object, its in-place tables, and what its answers mean. */
module AddressResolver {
  import opened Words
  import opened Dwarf
  import opened CsvBridge
  import opened AllocLookup
  import opened LoadBase
  import opened Globals
  import opened TypeInference
  import SortedSearch

  datatype ResolvedField = ResolvedField(
    typeName: string, element: Option<u64>, field: FieldInfo, byteOffset: u64, base: u64, address: u64)

  datatype ResolvedAddress =
    | Global(address: u64, symbolName: string, typeName: string, field: Option<ResolvedField>)
    | Heap(address: u64, size: u64, pid: u32, tid: u32, typeName: string, how: string, field: Option<ResolvedField>)
    | Stack(address: u64, symbolName: string)
    | Unknown(address: u64)

  // ----- globals -----

  /** The answer for a symbol and the field found in it. */
  function SymbolAnswer(sym: SymbolInfo, address: u64, field: Option<FieldInfo>): ResolvedAddress {
    Global(address, sym.name, sym.typeName,
           match field
           case None => None
           case Some(f) => Some(ResolvedField(sym.typeName, None, f, f.byteOffset, sym.address, address)))
  }

  /** The meaning of a global answer for a symbol and an offset into it. */
  ghost predicate IsSymbolAnswer(types: seq<TypeInfo>, sym: SymbolInfo, off: u64, address: u64, r: ResolvedAddress) {
    if sym.typeName == "" then r == SymbolAnswer(sym, address, None)
    else exists field :: IsResolved(types, sym.typeName, off, field) && r == SymbolAnswer(sym, address, field)
  }

  /** The meaning of a global answer for a look-up result. */
  ghost predicate IsLookupAnswer(
      types: seq<TypeInfo>, symbols: seq<SymbolInfo>, hit: Option<(nat, int)>, address: u64, r: Option<ResolvedAddress>)
    requires hit.Some? ==> hit.value.0 < |symbols|
  {
    match hit
    case None => r == None
    case Some((p, base)) =>
      && r.Some?
      && IsSymbolAnswer(types, symbols[p], Wrap64(Wrap64(address - base) - symbols[p].address), address, r.value)
  }

  ghost predicate IsGlobalAnswer(
      types: seq<TypeInfo>, symbols: seq<SymbolInfo>, address: u64, r: Option<ResolvedAddress>)
  {
    IsLookupAnswer(types, symbols, GlobalLookup(symbols, address), address, r)
  }

  /** The answer of a look-up that recovers a symbol at an offset is about that symbol, with the field there. */
  lemma RecoveredGlobalAnswer(
      types: seq<TypeInfo>, symbols: seq<SymbolInfo>, address: u64, i: nat, off: u64, r: Option<ResolvedAddress>)
    requires i < |symbols| && HitsAt(symbols, GlobalLookup(symbols, address), address, i, off)
    requires IsGlobalAnswer(types, symbols, address, r)
    ensures r.Some? && exists p: nat ::
      p < |symbols| && SameExtent(symbols[p], symbols[i]) && IsSymbolAnswer(types, symbols[p], off, address, r.value)
  {
    var p := GlobalLookup(symbols, address).value.0;
    assert IsSymbolAnswer(types, symbols[p], off, address, r.value);
  }

  /** The field of an answer for an offset into a type: one that lies there, the only one if the fields are disjoint;
      none only if the type is unknown or no field lies there. */
  ghost predicate IsFieldAt(types: seq<TypeInfo>, typeName: string, off: u64, field: Option<ResolvedField>) {
    var fields := TypeFields(types, typeName);
    match field
    case None => typeName == "" || forall g <- fields :: !LiesAt(g, off)
    case Some(f) =>
      && typeName != "" && f.typeName == typeName && f.field in fields && LiesAt(f.field, off)
      && (FieldsDisjoint(fields) && NoWrap(fields) ==> forall g <- fields :: LiesAt(g, off) <==> g == f.field)
  }

  lemma FieldIsAt(types: seq<TypeInfo>, typeName: string, off: u64, field: Option<FieldInfo>, r: Option<ResolvedField>)
    requires typeName != "" && IsResolved(types, typeName, off, field)
    requires r.Some? <==> field.Some?
    requires r.Some? ==> r.value.typeName == typeName && r.value.field == field.value
    ensures IsFieldAt(types, typeName, off, r)
  {
    ResolvedLies(types, typeName, off, field);
    if FieldsDisjoint(TypeFields(types, typeName)) && NoWrap(TypeFields(types, typeName)) {
      ResolvedIsOnly(types, typeName, off, field);
    }
  }

  /** The answer is about symbol `s`, with its name and type, and the field at offset `off`. */
  ghost predicate IsAbout(types: seq<TypeInfo>, s: SymbolInfo, off: u64, address: u64, r: ResolvedAddress) {
    && r.Global? && r.address == address && r.symbolName == s.name && r.typeName == s.typeName
    && IsFieldAt(types, s.typeName, off, r.field)
    && (r.field.Some? ==>
          && r.field.value.element == None && r.field.value.base == s.address && r.field.value.address == address
          && r.field.value.byteOffset == r.field.value.field.byteOffset)
  }

  lemma SymbolAnswerIsAbout(types: seq<TypeInfo>, s: SymbolInfo, off: u64, address: u64, r: ResolvedAddress)
    requires IsSymbolAnswer(types, s, off, address, r)
    ensures IsAbout(types, s, off, address, r)
  {
    if s.typeName != "" {
      var field :| IsResolved(types, s.typeName, off, field) && r == SymbolAnswer(s, address, field);
      FieldIsAt(types, s.typeName, off, field, r.field);
    }
  }

  lemma LookupAnswerIsAbout(
      types: seq<TypeInfo>, symbols: seq<SymbolInfo>, p: nat, base: int, address: u64, r: ResolvedAddress)
    requires p < |symbols| && symbols[p].address <= Wrap64(address - base)
    requires IsLookupAnswer(types, symbols, Some((p, base)), address, Some(r))
    ensures IsAbout(types, symbols[p], Wrap64(address - base) - symbols[p].address, address, r)
  {
    SymbolAnswerIsAbout(types, symbols[p], Wrap64(Wrap64(address - base) - symbols[p].address), address, r);
  }

  /** A global answer is about the symbol that the look-up hits, at the offset it is hit at. */
  lemma GlobalAnswerMeaning(types: seq<TypeInfo>, symbols: seq<SymbolInfo>, address: u64, r: ResolvedAddress)
    requires IsGlobalAnswer(types, symbols, address, Some(r))
    ensures GlobalLookup(symbols, address).Some?
    ensures var (p, base) := GlobalLookup(symbols, address).value;
      var start, c := symbols[p].address, Wrap64(address - base);
      start <= c && IsAbout(types, symbols[p], c - start, address, r)
  {
    HitStartsBelow(symbols, address);
    var (p, base) := GlobalLookup(symbols, address).value;
    LookupAnswerIsAbout(types, symbols, p, base, address, r);
  }

  // ----- heap -----

  /** The inferred type is known, not empty, and fills the allocation several times. */
  predicate IsArray(types: seq<TypeInfo>, inferred: Inference) {
    var t := TypeNamed(types, inferred.typeName);
    inferred.allocCount > 1 && t.Some? && t.value.byteSize > 0
  }

  /** Where in the inferred type an offset into the allocation falls. */
  function FieldOffset(types: seq<TypeInfo>, off: u64, inferred: Inference): u64 {
    if IsArray(types, inferred) then off % TypeNamed(types, inferred.typeName).value.byteSize else off
  }

  /** The answer for an address inside `alloc` and the field found; array answers carry the element's index
      and the offset from the start of the allocation. */
  function HeapAnswer(
      types: seq<TypeInfo>, alloc: AllocEntry, address: u64, inferred: Inference,
      field: Option<FieldInfo>): ResolvedAddress
    requires alloc.addr <= address
  {
    var off := address - alloc.addr;
    var resolved :=
      if field == None then None
      else if IsArray(types, inferred) then
        Some(ResolvedField(inferred.typeName, Some(off / TypeNamed(types, inferred.typeName).value.byteSize),
          field.value, off, alloc.addr, address))
      else
        Some(ResolvedField(inferred.typeName, None, field.value, field.value.byteOffset, alloc.addr, address));
    Heap(address, alloc.size, alloc.pid, alloc.tid, inferred.typeName, inferred.how, resolved)
  }

  /** The meaning of a heap answer, given what inference said. */
  ghost predicate IsHeapAnswer(
      types: seq<TypeInfo>, alloc: AllocEntry, address: u64, inferred: Inference, r: ResolvedAddress)
    requires alloc.addr <= address
  {
    if inferred.typeName == "" then r == HeapAnswer(types, alloc, address, inferred, None)
    else
      exists field :: IsResolved(types, inferred.typeName, FieldOffset(types, address - alloc.addr, inferred), field)
                      && r == HeapAnswer(types, alloc, address, inferred, field)
  }

  /** The address is base, plus whole elements, plus an offset inside the last one that the field starts at
      or covers; the elements fill the allocation and the index is one of theirs. */
  ghost predicate Decomposes(
      types: seq<TypeInfo>, alloc: AllocEntry, address: u64, inferred: Inference, f: ResolvedField)
    requires IsArray(types, inferred)
  {
    var elemSize := TypeNamed(types, inferred.typeName).value.byteSize;
    && inferred.allocCount * elemSize == alloc.size
    && f.element.Some? && f.element.value < inferred.allocCount && f.base == alloc.addr
    && var within := address - f.base - f.element.value * elemSize;
       0 <= within < elemSize && (StartsAt(f.field, within) || Covers(f.field, within))
  }

  lemma ArrayAnswerDecomposes(
      types: seq<TypeInfo>, alloc: AllocEntry, address: u64, inferred: Inference, r: ResolvedAddress)
    requires Contains(alloc, address) && CountFits(types, alloc.size, inferred)
    requires IsHeapAnswer(types, alloc, address, inferred, r) && IsArray(types, inferred) && r.field.Some?
    ensures Decomposes(types, alloc, address, inferred, r.field.value)
  {
    ContainedOffset(alloc, address);
    QuotientBelow(address - alloc.addr, TypeNamed(types, inferred.typeName).value.byteSize, inferred.allocCount);
  }

  /** An array answer takes the address apart correctly, unless it comes from the array fallback and its name
      leads to a type of another size. */
  lemma HeapDecompositionIff(
      b: Binary, alloc: AllocEntry, address: u64, pcs: seq<u64>, inferred: Inference, r: ResolvedAddress)
    requires inferred == Infer(b, alloc.size, pcs)
    requires Contains(alloc, address) && IsHeapAnswer(b.types, alloc, address, inferred, r)
    requires IsArray(b.types, inferred) && r.field.Some?
    ensures Decomposes(b.types, alloc, address, inferred, r.field.value) <==>
      (AnswersByArray(b, alloc.size, pcs) ==> ArrayNameLeadsBack(b.types, alloc.size))
  {
    InferredCountFitsIff(b, alloc.size, pcs);
    if CountFits(b.types, alloc.size, inferred) {
      ArrayAnswerDecomposes(b.types, alloc, address, inferred, r);
    }
  }

  lemma QuotientBelow(off: nat, d: nat, n: nat)
    requires d > 0 && off < n * d
    ensures off / d < n && off == off / d * d + off % d
  {
  }

  // ----- the whole answer -----

  /** The PCs inference looks at: those stored with the allocation, else those of the kernel's stack map, which
      has none for most ids. */
  function PcsFor(stackMap: i64 -> seq<u64>, stackId: i64, inlinePcs: seq<u64>): seq<u64> {
    if inlinePcs != [] then inlinePcs else if stackId > 0 then stackMap(stackId) else []
  }

  /** `r` is the right answer for an address found in the allocation. */
  ghost predicate IsHeapResult(
      b: Binary, stackMap: i64 -> seq<u64>, alloc: AllocEntry, address: u64, r: ResolvedAddress)
  {
    && alloc.addr <= address
    && IsHeapAnswer(b.types, alloc, address, Infer(b, alloc.size, PcsFor(stackMap, alloc.stackId, alloc.stackPcs)), r)
  }

  /** A heap answer for one object, that is, unless several elements of a known type were inferred: the field lies
      where the address lies in the allocation. */
  ghost predicate IsObjectField(
      types: seq<TypeInfo>, typeName: string, base: u64, address: u64, field: Option<ResolvedField>)
    requires base <= address
  {
    && IsFieldAt(types, typeName, address - base, field)
    && (field.Some? ==>
          && field.value.element == None && field.value.base == base && field.value.address == address
          && field.value.byteOffset == field.value.field.byteOffset)
  }

  /** A heap answer for an array of elements of `size` bytes: the field lies where the address lies in its element. */
  ghost predicate IsElementField(
      types: seq<TypeInfo>, typeName: string, size: u64, base: u64, address: u64, field: Option<ResolvedField>)
    requires base <= address && size > 0
  {
    forall index: u64, within: u64 :: address - base == Position(index, size, within) && within < size ==>
      && IsFieldAt(types, typeName, within, field)
      && (field.Some? ==>
            && field.value.element == Some(index) && field.value.base == base && field.value.address == address
            && field.value.byteOffset == address - base)
  }

  function Position(index: u64, size: u64, within: u64): int {
    index * size + within
  }

  /** What a heap answer says about allocation, type and field. */
  lemma HeapAnswerMeaning(b: Binary, stackMap: i64 -> seq<u64>, alloc: AllocEntry, address: u64, r: ResolvedAddress)
    requires IsHeapResult(b, stackMap, alloc, address, r)
    ensures alloc.addr <= address
    ensures var pcs :=
        if alloc.stackPcs != [] then alloc.stackPcs else if alloc.stackId <= 0 then [] else stackMap(alloc.stackId);
      var inferred := Infer(b, alloc.size, pcs);
      var t := TypeNamed(b.types, inferred.typeName);
      && r.Heap? && r.address == address && r.size == alloc.size && r.pid == alloc.pid && r.tid == alloc.tid
      && r.typeName == inferred.typeName && r.how == inferred.how
      && if inferred.allocCount > 1 && t.Some? && t.value.byteSize > 0 then
           IsElementField(b.types, inferred.typeName, t.value.byteSize, alloc.addr, address, r.field)
         else IsObjectField(b.types, inferred.typeName, alloc.addr, address, r.field)
  {
    HeapFieldMeaning(b.types, alloc, address, Infer(b, alloc.size, PcsFor(stackMap, alloc.stackId, alloc.stackPcs)), r);
  }

  lemma HeapFieldMeaning(
      types: seq<TypeInfo>, alloc: AllocEntry, address: u64, inferred: Inference, r: ResolvedAddress)
    requires alloc.addr <= address && IsHeapAnswer(types, alloc, address, inferred, r)
    ensures r.Heap?
    ensures var t := TypeNamed(types, inferred.typeName);
      if inferred.allocCount > 1 && t.Some? && t.value.byteSize > 0 then
        IsElementField(types, inferred.typeName, t.value.byteSize, alloc.addr, address, r.field)
      else IsObjectField(types, inferred.typeName, alloc.addr, address, r.field)
  {
    var off, t := address - alloc.addr, TypeNamed(types, inferred.typeName);
    if inferred.typeName != "" {
      var at := FieldOffset(types, off, inferred);
      var field :| IsResolved(types, inferred.typeName, at, field)
                   && r == HeapAnswer(types, alloc, address, inferred, field);
      FieldIsAt(types, inferred.typeName, at, field, r.field);
    }
    if IsArray(types, inferred) {
      forall index: u64, within: u64 | off == Position(index, t.value.byteSize, within) && within < t.value.byteSize
        ensures off / t.value.byteSize == index && off % t.value.byteSize == within
      {
        DivUnique(off, t.value.byteSize, index, within);
      }
    }
  }

  /** The symbol of the innermost frame, if there is a frame and a symbol. */
  function InnermostSymbol(symbols: seq<SymbolInfo>, frames: seq<u64>): (p: Option<nat>)
    ensures p.Some? ==> p.value < |symbols|
  {
    if frames == [] then None else SymbolAt(symbols, frames[0])
  }

  /** An address that is neither a global's nor the heap's is put down to the function of the innermost frame. */
  function StackAnswer(symbols: seq<SymbolInfo>, address: u64, frames: seq<u64>): ResolvedAddress {
    match InnermostSymbol(symbols, frames)
    case Some(p) => Stack(address, symbols[p].name)
    case None => Unknown(address)
  }

  /** What the resolver may answer: globals first, then the heap, then the stack. `used` is the position of the
      allocation the answer is about, if it is about one. */
  ghost predicate IsResolution(
      b: Binary, stackMap: i64 -> seq<u64>, allocs: seq<AllocEntry>,
      address: u64, frames: seq<u64>, r: ResolvedAddress, used: Option<nat>)
    requires SortedByAddress(allocs)
  {
    if IsClaimed(b.symbols, address) then used == None && IsGlobalAnswer(b.types, b.symbols, address, Some(r))
    else
      && IsFound(allocs, address, used)
      && match used
         case Some(i) => i < |allocs| && IsHeapResult(b, stackMap, allocs[i], address, r)
         case None => r == StackAnswer(b.symbols, address, frames)
  }

  /** What the answer says when it is about an allocation. */
  lemma UsedAnswerMeaning(
      b: Binary, stackMap: i64 -> seq<u64>, allocs: seq<AllocEntry>,
      address: u64, frames: seq<u64>, r: ResolvedAddress, i: nat)
    requires SortedByAddress(allocs) && IsResolution(b, stackMap, allocs, address, frames, r, Some(i))
    ensures i < |allocs| && allocs[i].addr <= address < allocs[i].addr + allocs[i].size && allocs[i].live
    ensures var alloc := allocs[i];
      var pcs :=
        if alloc.stackPcs != [] then alloc.stackPcs else if alloc.stackId <= 0 then [] else stackMap(alloc.stackId);
      var inferred := Infer(b, alloc.size, pcs);
      var t := TypeNamed(b.types, inferred.typeName);
      && r.Heap? && r.typeName == inferred.typeName
      && if inferred.allocCount > 1 && t.Some? && t.value.byteSize > 0 then
           IsElementField(b.types, inferred.typeName, t.value.byteSize, alloc.addr, address, r.field)
         else IsObjectField(b.types, inferred.typeName, alloc.addr, address, r.field)
  {
    FoundIsOwner(allocs, address, Some(i));
    ContainedOffset(allocs[i], address);
    HeapAnswerMeaning(b, stackMap, allocs[i], address, r);
  }

  /** Which stage answers. */
  lemma AnswerClass(
      b: Binary, stackMap: i64 -> seq<u64>, allocs: seq<AllocEntry>,
      address: u64, frames: seq<u64>, r: ResolvedAddress, used: Option<nat>)
    requires SortedByAddress(allocs) && IsResolution(b, stackMap, allocs, address, frames, r, used)
    ensures r.Global? <==> IsClaimed(b.symbols, address)
    ensures r.Heap? <==> used.Some?
    ensures r.Heap? <==> !IsClaimed(b.symbols, address) && !IsFound(allocs, address, None)
    ensures r.Stack? || r.Unknown? ==>
      r == if frames != [] && SymbolAt(b.symbols, frames[0]).Some?
           then Stack(address, b.symbols[SymbolAt(b.symbols, frames[0]).value].name) else Unknown(address)
  {
    GlobalHitIff(b.symbols, address);
    if IsFound(allocs, address, None) && !IsClaimed(b.symbols, address) { FoundIsUnique(allocs, address, used, None); }
  }

  // ----- the resolver -----

  class AddressResolver {
    const analyzer: DwarfAnalyzer
    const source: u64 -> SourceGuess    // the source-text analyser
    const stackMap: i64 -> seq<u64>     // PCs the kernel's stack map holds, empty when there are none
    var allocs: seq<AllocEntry>
    var binaryRanges: seq<Range>
    var sizeIndex: map<u64, seq<nat>>
    var aslrOffset: int

    /** The tables and the range are those of the binary. */
    ghost predicate IsLoaded()
      reads this, analyzer
    {
      && analyzer.Valid()
      && SortedByAddress(allocs)
      && AreDetected(Extents(analyzer.subprograms, analyzer.symbols), binaryRanges)
      && IsSizeIndex(sizeIndex, analyzer.types)
    }

    ghost predicate Valid()
      reads this, analyzer
    {
      IsLoaded() && PageLoopsEnd(binaryRanges)
    }

    ghost function Program(): Binary
      reads this, analyzer
    {
      Binary(analyzer.types, analyzer.symbols, analyzer.subprograms, binaryRanges, source)
    }

    /** `load_binary`; the allocation table starts empty. A detected range that ends on the last page but one of the
        address space leaves an object whose page loop may not end. */
    constructor (analyzer: DwarfAnalyzer, source: u64 -> SourceGuess, stackMap: i64 -> seq<u64>)
      requires analyzer.Valid()
      ensures IsLoaded() && this.analyzer == analyzer && this.source == source && this.stackMap == stackMap
      ensures (forall e <- Extents(analyzer.subprograms, analyzer.symbols) :: !EndsOnLastPage(e.hi)) ==> Valid()
      ensures allocs == [] && aslrOffset == 0
    {
      this.analyzer, this.source, this.stackMap := analyzer, source, stackMap;
      allocs, aslrOffset := [], 0;
      var index := BuildSizeIndex(analyzer.types);
      var ranges := DetectBinaryRanges(analyzer.subprograms, analyzer.symbols);
      sizeIndex, binaryRanges := index, ranges;
    }

    /** For an address of the binary, relocated by a page-aligned base: the object maps it back exactly when it
        lies less than a page past the start of every subprogram and symbol, and, if one of them ends on the last
        page of the address space, on page 0. */
    lemma FileAddressRecoveredIff(e: Extent, x: u64, base: int)
      requires IsLoaded() && e in Extents(analyzer.subprograms, analyzer.symbols) && e.lo <= x < e.hi
      requires base % PAGE == 0 && base >= WINDOW_LOW && x + base < LIBRARIES
      ensures VaToFile(binaryRanges, x + base) == x <==>
        forall f <- Extents(analyzer.subprograms, analyzer.symbols) :: x < f.lo + PAGE && IsReached(f.hi, x)
    {
      DetectedRangeUndoesRelocationIff(Extents(analyzer.subprograms, analyzer.symbols), binaryRanges, e, x, base);
    }

    /** Replaces the table by a sorted copy of `table`. */
    method SetAllocTable(table: seq<AllocEntry>)
      requires Valid()
      modifies this`allocs
      ensures Valid() && IsSortOf(allocs, table)
    {
      allocs := SortByAddress(table);
    }

    method FindAlloc(addr: u64) returns (r: Option<nat>)
      requires Valid()
      ensures IsFound(allocs, addr, r)
    {
      r := ScanBack(allocs, addr);
    }

    /** A cached base is returned as it is; otherwise the winner of the vote is cached and returned. */
    method ComputeAslrOffset(pcs: seq<u64>) returns (base: int)
      requires Valid()
      modifies this`aslrOffset
      ensures aslrOffset == base
      ensures base == if old(aslrOffset) != 0 then old(aslrOffset) else Winner(Votes(pcs, analyzer.subprograms))
    {
      if aslrOffset != 0 { return aslrOffset; }
      var counts := TallyVotes(pcs, analyzer.subprograms);
      ghost var votes := Votes(pcs, analyzer.subprograms);
      TallyEmptyIff(counts, votes);
      if |counts| != 0 {
        base := BestOffset(counts, votes);
        aslrOffset := base;
      } else {
        base := 0;
      }
    }

    method FunctionNames(pcs: seq<u64>) returns (names: seq<string>)
      requires Valid()
      ensures names == FunctionsOf(Program(), pcs)
    {
      names := [];
      var i := 0;
      while i < |pcs|
        invariant 0 <= i <= |pcs|
        invariant names == FunctionsOf(Program(), pcs[..i])
      {
        assert pcs[..i + 1][..i] == pcs[..i];
        LoopsEndSearches(binaryRanges, pcs[i]);
        var mapped := VaToFileOffset(binaryRanges, pcs[i]);
        var sym := analyzer.FindSymbolByAddr(mapped);
        if sym == None {
          sym := analyzer.FindSymbolByAddr(pcs[i]);
        }
        if sym.Some? && analyzer.symbols[sym.value].name !in SKIPPED {
          names := names + [analyzer.symbols[sym.value].name];
        }
        i := i + 1;
      }
      assert pcs[..i] == pcs;
    }

    method StackPointerTypes(names: seq<string>) returns (r: seq<string>)
      requires analyzer.Valid()
      ensures r == SortedDistinct(AllTargets(analyzer.subprograms, names))
    {
      r := [];
      var i := 0;
      while i < |names|
        invariant 0 <= i <= |names|
        invariant r == AllTargets(analyzer.subprograms, names[..i])
      {
        assert names[..i + 1][..i] == names[..i];
        var sp := analyzer.FindSubprogramByName(names[i]);
        if sp.Some? {
          var targets := CollectTargets(analyzer.subprograms[sp.value].locals);
          r := r + targets;
        }
        i := i + 1;
      }
      assert names[..i] == names;
      r := SortedDistinct(r);
    }

    /** Size of the allocation over size of the named type, when that comes out even. */
    method ElementCount(name: string, size: u64) returns (n: u64)
      requires analyzer.Valid()
      ensures n == CountFor(analyzer.types, name, size)
    {
      n := 1;
      var t := analyzer.FindTypeByName(name);
      if t.Some? && t.value.byteSize > 0 && size % t.value.byteSize == 0 {
        n := size / t.value.byteSize;
      }
    }

    method InspectFrame(size: u64, pc: u64) returns (r: Option<Inference>)
      requires Valid()
      ensures r == FrameVerdict(Program(), size, pc)
    {
      var callerPc := if pc > 0 then pc - 1 else pc;
      var inTarget := IsInTargetBinary(binaryRanges, callerPc);
      if !inTarget { return None; }
      LoopsEndSearches(binaryRanges, callerPc);
      var file := VaToFileOffset(binaryRanges, callerPc);
      var guess := source(file);
      if guess.typeName != "" && guess.confidence >= 0.5 {
        var count := ElementCount(guess.typeName, size);
        return Some(Inference(guess.typeName, count, guess.how));
      }
      var pcTypes := analyzer.FindPointerTargetTypesAtPc(file);
      if |pcTypes| == 1 {
        var count := ElementCount(pcTypes[0], size);
        return Some(Inference(pcTypes[0], count, "callsite_pc"));
      }
      if |pcTypes| > 1 {
        var candidates := GetSizeCandidates(analyzer.types, sizeIndex, size);
        var common := Intersect(pcTypes, candidates);
        if |common| == 1 {
          var count := ElementCount(common[0], size);
          return Some(Inference(common[0], count, "combined"));
        }
        if |common| > 1 {
          return Some(Inference(common[0], 1, "combined_ambiguous"));
        }
        return Some(Inference(pcTypes[0], 1, "callsite_ambiguous"));
      }
      return None;
    }

    method InferByFunctions(size: u64, pcs: seq<u64>) returns (r: Inference)
      requires Valid()
      ensures r == FunctionPass(Program(), size, StackTargets(Program(), pcs))
    {
      r := NOTHING;
      var names := FunctionNames(pcs);
      var targets := StackPointerTypes(names);
      if |targets| == 1 {
        r := Inference(targets[0], 1, "callsite_func");
      } else if |targets| > 1 {
        var candidates := GetSizeCandidates(analyzer.types, sizeIndex, size);
        var common := Intersect(targets, candidates);
        if |common| == 1 {
          r := Inference(common[0], 1, "callsite_func+size");
        } else if |common| > 1 {
          r := Inference(common[0], 1, "callsite_func_ambiguous");
        } else {
          r := Inference(targets[0], 1, "callsite_func_ambiguous");
        }
      }
    }

    method InferBySize(size: u64, left: Inference) returns (r: Inference)
      requires Valid()
      ensures r == SizeFallback(Program(), size, left)
    {
      var candidates := GetSizeCandidates(analyzer.types, sizeIndex, size);
      if |candidates| == 1 { return Inference(candidates[0], 1, "size_match"); }
      if |candidates| > 1 { return Inference(candidates[0], left.allocCount, "size_ambiguous"); }
      var arrayResult := TryArraySizeMatch(analyzer.types, size);
      if arrayResult.typeName != "" { return arrayResult; }
      return left.(how := "unknown");
    }

    /** The answer depends on the binary, the size and the PCs only; the cached base is recomputed, not used. */
    method InferTypeCombinedV2(stackId: i64, size: u64, inlinePcs: seq<u64>) returns (r: Inference)
      requires Valid()
      modifies this`aslrOffset
      ensures Valid()
      ensures inlinePcs != [] ==> r == Infer(Program(), size, inlinePcs)
      ensures inlinePcs == [] && stackId > 0 ==> r == Infer(Program(), size, stackMap(stackId))
      ensures inlinePcs == [] && stackId <= 0 ==> r == Infer(Program(), size, [])
      ensures aslrOffset ==
        if PcsFor(stackMap, stackId, inlinePcs) == [] then old(aslrOffset)
        else Winner(Votes(PcsFor(stackMap, stackId, inlinePcs), analyzer.subprograms))
    {
      var pcs := [];
      if inlinePcs != [] {
        pcs := inlinePcs;
      } else if stackId > 0 {
        pcs := stackMap(stackId);
      }
      if pcs == [] {
        r := InferBySize(size, NOTHING);
        return;
      }
      aslrOffset := 0;
      var _ := ComputeAslrOffset(pcs);
      r := InferFromStack(size, pcs);
    }

    method InferFromStack(size: u64, pcs: seq<u64>) returns (r: Inference)
      requires Valid() && pcs != []
      ensures r == Infer(Program(), size, pcs)
    {
      ghost var b := Program();
      var i := 1;
      while i < |pcs|
        invariant 1 <= i <= |pcs|
        invariant FirstVerdict(b, size, pcs, 1) == FirstVerdict(b, size, pcs, i)
      {
        var verdict := InspectFrame(size, pcs[i]);
        if verdict.Some? { return verdict.value; }
        i := i + 1;
      }
      var byFunction := InferByFunctions(size, pcs);
      if byFunction.typeName != "" && !Mentions(byFunction.typeName, "ambiguous") {
        var count := ElementCount(byFunction.typeName, size);
        return byFunction.(allocCount := count);
      }
      r := InferBySize(size, byFunction);
    }

    method ResolveGlobal(address: u64) returns (r: Option<ResolvedAddress>)
      requires Valid()
      ensures IsGlobalAnswer(analyzer.types, analyzer.symbols, address, r)
    {
      var hit := LookupGlobal(analyzer, address);
      r := AnswerLookup(hit, address);
    }

    method AnswerLookup(hit: Option<(nat, int)>, address: u64) returns (r: Option<ResolvedAddress>)
      requires analyzer.Valid() && (hit.Some? ==> hit.value.0 < |analyzer.symbols|)
      ensures IsLookupAnswer(analyzer.types, analyzer.symbols, hit, address, r)
    {
      if hit == None { return None; }
      var (p, base) := hit.value;
      var s := analyzer.symbols[p];
      var off := Wrap64(Wrap64(address - base) - s.address);
      var answer := AnswerGlobal(s, off, address);
      assert IsSymbolAnswer(analyzer.types, analyzer.symbols[p], off, address, answer);
      return Some(answer);
    }

    method AnswerGlobal(sym: SymbolInfo, off: u64, address: u64) returns (r: ResolvedAddress)
      requires analyzer.Valid()
      ensures IsSymbolAnswer(analyzer.types, sym, off, address, r)
    {
      var field := None;
      if sym.typeName != "" {
        field := analyzer.ResolveFieldAtOffset(sym.typeName, off);
      }
      r := SymbolAnswer(sym, address, field);
    }

    /** `found` is the position the scan arrives at; `IsFound` fixes it. */
    method ResolveHeap(address: u64) returns (r: Option<ResolvedAddress>, ghost found: Option<nat>)
      requires Valid()
      modifies this`aslrOffset
      ensures Valid() && IsFound(allocs, address, found)
      ensures r.Some? <==> found.Some?
      ensures r.Some? ==>
        found.value < |allocs| && IsHeapResult(Program(), stackMap, allocs[found.value], address, r.value)
    {
      var i := FindAlloc(address);
      found := i;
      if i == None { return None, None; }
      FoundIsOwner(allocs, address, i);
      var alloc := allocs[i.value];
      var inferred := InferTypeCombinedV2(alloc.stackId, alloc.size, alloc.stackPcs);
      var answer := AnswerHeap(alloc, address, inferred);
      return Some(answer), i;
    }

    /** The field at an offset into the allocation, and in an array the index of the element it is in. */
    method FieldInside(off: u64, inferred: Inference) returns (element: Option<u64>, field: Option<FieldInfo>)
      requires analyzer.Valid() && inferred.typeName != ""
      ensures IsResolved(analyzer.types, inferred.typeName, FieldOffset(analyzer.types, off, inferred), field)
      ensures element ==
        if !IsArray(analyzer.types, inferred) then None
        else Some(off / TypeNamed(analyzer.types, inferred.typeName).value.byteSize)
    {
      var t := analyzer.FindTypeByName(inferred.typeName);
      if inferred.allocCount > 1 && t.Some? && t.value.byteSize > 0 {
        var size := t.value.byteSize;
        var within := off % size;
        assert within == FieldOffset(analyzer.types, off, inferred);
        element := Some(off / size);
        field := analyzer.ResolveFieldAtOffset(inferred.typeName, within);
      } else {
        element := None;
        assert off == FieldOffset(analyzer.types, off, inferred);
        field := analyzer.ResolveFieldAtOffset(inferred.typeName, off);
      }
    }

    method AnswerHeap(alloc: AllocEntry, address: u64, inferred: Inference) returns (r: ResolvedAddress)
      requires analyzer.Valid() && alloc.addr <= address
      ensures IsHeapAnswer(analyzer.types, alloc, address, inferred, r)
    {
      var off := address - alloc.addr;
      var element, field := None, None;
      if inferred.typeName != "" {
        element, field := FieldInside(off, inferred);
      }
      var resolved := None;
      if field.Some? {
        var shown := if element.Some? then off else field.value.byteOffset;
        resolved := Some(ResolvedField(inferred.typeName, element, field.value, shown, alloc.addr, address));
      }
      r := Heap(address, alloc.size, alloc.pid, alloc.tid, inferred.typeName, inferred.how, resolved);
      assert r == HeapAnswer(analyzer.types, alloc, address, inferred, field);
    }

    /** A stack address is put down to the function of the innermost frame. */
    method ResolveStack(address: u64, frames: seq<u64>) returns (r: Option<ResolvedAddress>)
      requires analyzer.Valid()
      ensures r.Some? <==> frames != [] && SymbolAt(analyzer.symbols, frames[0]).Some?
      ensures r.Some? ==> r.value == Stack(address, analyzer.symbols[SymbolAt(analyzer.symbols, frames[0]).value].name)
    {
      if frames == [] { return None; }
      var sym := analyzer.FindSymbolByAddr(frames[0]);
      if sym == None { return None; }
      return Some(Stack(address, analyzer.symbols[sym.value].name));
    }

    /** Globals first, then the heap, then the stack; unknown only if all three fail. */
    method Resolve(address: u64, frames: seq<u64>) returns (r: ResolvedAddress, ghost used: Option<nat>)
      requires Valid()
      modifies this`aslrOffset
      ensures Valid()
      ensures IsResolution(Program(), stackMap, allocs, address, frames, r, used)
    {
      used := None;
      var global := ResolveGlobal(address);
      GlobalHitIff(analyzer.symbols, address);
      if global.Some? { return global.value, None; }
      var heap, found := ResolveHeap(address);
      if heap.Some? { return heap.value, found; }
      var stack := ResolveStack(address, frames);
      if stack.Some? { return stack.value, None; }
      return Unknown(address), None;
    }
  }
}
