/** The debug-information tables and their look-ups. The lists themselves (symbols, types, subprograms) come
    from the ELF and DWARF readers and are inputs here. */
module Dwarf {
  import opened Words
  import opened SortedSearch

  datatype FieldInfo = FieldInfo(name: string, byteOffset: u64, byteSize: u64, typeName: string)
  datatype TypeInfo = TypeInfo(dieOffset: u64, name: string, byteSize: u64, fields: seq<FieldInfo>)
  datatype SymbolKind = FunctionSymbol | ObjectSymbol | OtherSymbol
  datatype SymbolInfo = SymbolInfo(name: string, address: u64, size: u64, typeName: string, kind: SymbolKind)
  datatype LocalVariable = LocalVariable(name: string, isPointer: bool, targetTypeName: string)
  datatype SubprogramInfo = SubprogramInfo(
    name: string, linkageName: string, lowPc: u64, highPc: u64, highPcIsOffset: bool, locals: seq<LocalVariable>)

  /** DWARF 5, section 2.17.2: a constant-class `high_pc` is an offset from `low_pc`, an address-class one
      is the address past the end. */
  function EndPc(sp: SubprogramInfo): u64 {
    if sp.highPcIsOffset then Wrap64(sp.lowPc + sp.highPc) else sp.highPc
  }

  // ----- last-wins indexes -----

  /** The last position of `k`, or -1. */
  function LastIndex<K(==)>(keys: seq<K>, k: K): (i: int)
    ensures -1 <= i < |keys|
    ensures i >= 0 ==> keys[i] == k
    ensures forall j :: i < j < |keys| ==> keys[j] != k
  {
    if keys == [] then -1
    else if keys[|keys| - 1] == k then |keys| - 1
    else LastIndex(keys[..|keys| - 1], k)
  }

  ghost predicate IsIndexOf<K(!new)>(index: map<K, nat>, keys: seq<K>) {
    forall k :: (k in index <==> LastIndex(keys, k) >= 0) && (k in index ==> index[k] == LastIndex(keys, k))
  }

  /** Enters every key with its position, later ones over earlier ones. */
  method BuildIndex<K(==, !new)>(keys: seq<K>) returns (index: map<K, nat>)
    ensures IsIndexOf(index, keys)
  {
    index := map[];
    var i := 0;
    while i < |keys|
      invariant 0 <= i <= |keys|
      invariant IsIndexOf(index, keys[..i])
    {
      assert keys[..i + 1][..i] == keys[..i];
      index := index[keys[i] := i];
      i := i + 1;
    }
    assert keys[..i] == keys;
  }

  // ----- symbols -----

  /** The comparator of the symbol sort: by address, unnamed types first. */
  predicate SymbolLess(a: SymbolInfo, b: SymbolInfo) {
    if a.address != b.address then a.address < b.address else a.typeName == "" && b.typeName != ""
  }

  /** What `std::sort` with that comparator promises. */
  predicate SymbolsSorted(symbols: seq<SymbolInfo>) {
    forall i, j :: 0 <= i < j < |symbols| ==> !SymbolLess(symbols[j], symbols[i])
  }

  function SymbolAddresses(symbols: seq<SymbolInfo>): (keys: seq<u64>)
    ensures |keys| == |symbols|
  {
    seq(|symbols|, i requires 0 <= i < |symbols| => symbols[i].address)
  }

  predicate InExtent(s: SymbolInfo, addr: u64) {
    s.address <= addr < Wrap64(s.address + s.size)
  }

  /** Linear scan, no order assumed: the last symbol among those with the greatest start at or below `addr`. */
  function LastGreatestStart(symbols: seq<SymbolInfo>, addr: u64): (p: int)
    ensures -1 <= p < |symbols|
  {
    if symbols == [] then -1
    else
      var n := |symbols| - 1;
      var p := LastGreatestStart(symbols[..n], addr);
      if symbols[n].address <= addr && (p < 0 || symbols[p].address <= symbols[n].address) then n else p
  }

  lemma {:induction false} GreatestStartFacts(symbols: seq<SymbolInfo>, addr: u64)
    ensures var p := LastGreatestStart(symbols, addr);
      && (p >= 0 ==> symbols[p].address <= addr)
      && (forall j :: 0 <= j < |symbols| && symbols[j].address <= addr ==>
            p >= 0 && symbols[j].address <= symbols[p].address)
      && (forall j :: 0 <= p < j < |symbols| && symbols[j].address <= addr ==> symbols[j].address < symbols[p].address)
  {
    if symbols != [] {
      GreatestStartFacts(symbols[..|symbols| - 1], addr);
    }
  }

  /** That symbol, if it starts at `addr` or its extent contains it. */
  function SymbolAt(symbols: seq<SymbolInfo>, addr: u64): (r: Option<nat>)
    ensures r.Some? ==> r.value < |symbols|
  {
    var p := LastGreatestStart(symbols, addr);
    if p >= 0 && (symbols[p].address == addr || InExtent(symbols[p], addr)) then Some(p) else None
  }

  /** The whole meaning of the look-up: symbol `p` has the greatest start at or below the address, is the last of
      those that share it, and either starts at the address, whatever its size, or reaches past it. */
  lemma SymbolAtIff(symbols: seq<SymbolInfo>, addr: u64, p: nat)
    requires p < |symbols|
    ensures SymbolAt(symbols, addr) == Some(p) <==>
      && symbols[p].address <= addr
      && (forall j :: 0 <= j < |symbols| && symbols[p].address < symbols[j].address ==> addr < symbols[j].address)
      && (forall j :: p < j < |symbols| ==> symbols[j].address != symbols[p].address)
      && (addr == symbols[p].address || addr < symbols[p].address + symbols[p].size < TWO64)
  {
    GreatestStartFacts(symbols, addr);
    var q := LastGreatestStart(symbols, addr);
    if symbols[p].address <= addr && q >= 0 && q != p {
      assert symbols[p].address <= symbols[q].address;
    }
  }

  lemma SortedAddresses(symbols: seq<SymbolInfo>)
    requires SymbolsSorted(symbols)
    ensures Ascending(SymbolAddresses(symbols))
  {
  }

  /** The binary search lands on what the linear scan finds. */
  lemma UpperBoundIsGreatestStart(symbols: seq<SymbolInfo>, addr: u64)
    requires SymbolsSorted(symbols)
    ensures Ascending(SymbolAddresses(symbols))
    ensures LastGreatestStart(symbols, addr) == UpperBound(SymbolAddresses(symbols), addr) - 1
  {
    SortedAddresses(symbols);
    var keys := SymbolAddresses(symbols);
    var p, ub := LastGreatestStart(symbols, addr), UpperBound(keys, addr);
    GreatestStartFacts(symbols, addr);
    assert p >= 0 ==> keys[p] <= addr;
    if ub > 0 {
      assert symbols[ub - 1].address == keys[ub - 1] <= addr;
    }
  }

  /** The index entry for a start address is the linear scan's choice. */
  lemma LastStartIsGreatestStart(symbols: seq<SymbolInfo>, addr: u64)
    requires LastIndex(SymbolAddresses(symbols), addr) >= 0
    ensures LastGreatestStart(symbols, addr) == LastIndex(SymbolAddresses(symbols), addr)
  {
    var keys := SymbolAddresses(symbols);
    var i, p := LastIndex(keys, addr), LastGreatestStart(symbols, addr);
    GreatestStartFacts(symbols, addr);
    assert symbols[i].address == addr;
    assert keys[p] == symbols[p].address;
  }

  /** Among symbols sharing a start address a look-up prefers one whose type is named. */
  lemma NamedSymbolPreferred(symbols: seq<SymbolInfo>, addr: u64, j: nat)
    requires SymbolsSorted(symbols) && SymbolAt(symbols, addr).Some?
    requires j < |symbols| && symbols[j].typeName != ""
    requires symbols[j].address == symbols[SymbolAt(symbols, addr).value].address
    ensures symbols[SymbolAt(symbols, addr).value].typeName != ""
  {
    var p := SymbolAt(symbols, addr).value;
    GreatestStartFacts(symbols, addr);
    if j < p {
      assert !SymbolLess(symbols[p], symbols[j]);
    }
  }

  predicate SameExtent(s: SymbolInfo, t: SymbolInfo) {
    s.address == t.address && s.size == t.size
  }

  /** Up to `addr` no symbol starts after symbol `i`, and those that start with it share its extent. */
  predicate ApartAt(symbols: seq<SymbolInfo>, i: nat, addr: u64)
    requires i < |symbols|
  {
    forall j: nat :: j < |symbols| && symbols[j].address <= addr ==>
      symbols[j].address < symbols[i].address || SameExtent(symbols[j], symbols[i])
  }

  /** An address in the extent of a symbol that is apart there resolves to a symbol with that extent. */
  lemma ApartSymbolFound(symbols: seq<SymbolInfo>, addr: u64, i: nat)
    requires i < |symbols| && InExtent(symbols[i], addr) && ApartAt(symbols, i, addr)
    ensures SymbolAt(symbols, addr).Some? && SameExtent(symbols[SymbolAt(symbols, addr).value], symbols[i])
  {
    GreatestStartFacts(symbols, addr);
  }

  // ----- fields -----

  predicate StartsAt(f: FieldInfo, off: u64) { f.byteOffset == off }

  predicate Covers(f: FieldInfo, off: u64) {
    f.byteSize > 0 && f.byteOffset <= off < Wrap64(f.byteOffset + f.byteSize)
  }

  /** A field of positive size that starts exactly at the offset. */
  predicate Exact(f: FieldInfo, off: u64) {
    StartsAt(f, off) && f.byteSize > 0
  }

  predicate NoWrap(fields: seq<FieldInfo>) {
    forall f <- fields :: f.byteOffset + f.byteSize < TWO64
  }

  /** Of the fields that start at the offset none reaches the end of the address space. */
  predicate NoWrapAt(fields: seq<FieldInfo>, off: u64) {
    forall f <- fields :: Exact(f, off) ==> Covers(f, off)
  }

  /** The earliest largest field that starts at the offset. */
  predicate IsEarliestLargest(fields: seq<FieldInfo>, off: u64, i: nat) {
    && i < |fields| && Exact(fields[i], off)
    && forall j :: 0 <= j < |fields| && Exact(fields[j], off) ==>
         fields[j].byteSize < fields[i].byteSize || (fields[j].byteSize == fields[i].byteSize && i <= j)
  }

  /** The earliest covering field with the greatest start. */
  predicate IsEarliestNearest(fields: seq<FieldInfo>, off: u64, i: nat) {
    && i < |fields| && Covers(fields[i], off)
    && forall j :: 0 <= j < |fields| && Covers(fields[j], off) ==>
         fields[j].byteOffset < fields[i].byteOffset || (fields[j].byteOffset == fields[i].byteOffset && i <= j)
  }

  /** An empty field at the offset that no field at or covering the offset precedes. */
  predicate IsLeadingEmpty(fields: seq<FieldInfo>, off: u64, i: nat) {
    && i < |fields| && StartsAt(fields[i], off) && fields[i].byteSize == 0
    && forall j :: 0 <= j < i ==> !StartsAt(fields[j], off) && !Covers(fields[j], off)
  }

  /** The complete meaning of the selection: a field starting at the offset if there is one of positive
      size; else a leading empty field; else the nearest covering field; else nothing. */
  ghost predicate IsSelected(fields: seq<FieldInfo>, off: u64, r: Option<nat>) {
    if HasExact(fields, off) then r.Some? && IsEarliestLargest(fields, off, r.value)
    else if HasLeadingEmpty(fields, off) then r.Some? && IsLeadingEmpty(fields, off, r.value)
    else if HasCover(fields, off) then r.Some? && IsEarliestNearest(fields, off, r.value)
    else r == None
  }

  /** The loop's choice after one more field. */
  function Choose(fields: seq<FieldInfo>, off: u64, best: Option<nat>, f: FieldInfo): Option<nat>
    requires best.Some? ==> best.value < |fields|
  {
    if StartsAt(f, off) && (best == None || f.byteSize > fields[best.value].byteSize) then Some(|fields|)
    else if Covers(f, off) && (best == None || f.byteOffset > fields[best.value].byteOffset) then Some(|fields|)
    else best
  }

  ghost predicate HasExact(fields: seq<FieldInfo>, off: u64) { exists i :: 0 <= i < |fields| && Exact(fields[i], off) }
  ghost predicate HasLeadingEmpty(fields: seq<FieldInfo>, off: u64) { exists i: nat :: IsLeadingEmpty(fields, off, i) }
  ghost predicate HasCover(fields: seq<FieldInfo>, off: u64) { exists i :: 0 <= i < |fields| && Covers(fields[i], off) }

  /** Which kinds of candidate there are after one more field. */
  lemma CandidatesOneMore(fields: seq<FieldInfo>, off: u64, f: FieldInfo)
    ensures HasExact(fields + [f], off) <==> HasExact(fields, off) || Exact(f, off)
    ensures HasCover(fields + [f], off) <==> HasCover(fields, off) || Covers(f, off)
    ensures forall i: nat :: i < |fields| ==> (IsLeadingEmpty(fields + [f], off, i) <==> IsLeadingEmpty(fields, off, i))
  {
    var fs, n := fields + [f], |fields|;
    assert fs[n] == f && forall i :: 0 <= i < n ==> fs[i] == fields[i];
    if HasExact(fields, off) {
      var i :| 0 <= i < n && Exact(fields[i], off);
      assert Exact(fs[i], off);
    }
    if HasCover(fields, off) {
      var i :| 0 <= i < n && Covers(fields[i], off);
      assert Covers(fs[i], off);
    }
  }

  lemma SelectWithExact(fields: seq<FieldInfo>, off: u64, best: Option<nat>, f: FieldInfo)
    requires HasExact(fields, off) || Exact(f, off)
    requires IsSelected(fields, off, best) && (best.Some? ==> best.value < |fields|)
    requires Exact(f, off) ==> Covers(f, off)
    ensures IsSelected(fields + [f], off, Choose(fields, off, best, f))
  {
  }

  lemma SelectWithoutExact(fields: seq<FieldInfo>, off: u64, best: Option<nat>, f: FieldInfo)
    requires !HasExact(fields, off) && !Exact(f, off)
    requires IsSelected(fields, off, best) && (best.Some? ==> best.value < |fields|)
    ensures IsSelected(fields + [f], off, Choose(fields, off, best, f))
  {
    CandidatesOneMore(fields, off, f);
    var fs, n := fields + [f], |fields|;
    assert fs[n] == f && forall i :: 0 <= i < n ==> fs[i] == fields[i];
    if HasLeadingEmpty(fields, off) {
      assert IsLeadingEmpty(fs, off, best.value);
    } else if HasCover(fields, off) {
      assert IsEarliestNearest(fields, off, best.value);
      assert !IsLeadingEmpty(fs, off, n);
      assert !HasLeadingEmpty(fs, off);
    } else {
      assert forall j: nat :: j < n ==> !StartsAt(fields[j], off) by {
        if j: nat :| j < n && StartsAt(fields[j], off) { FirstEmpty(fields, off, j); }
      }
      if StartsAt(f, off) {
        assert IsLeadingEmpty(fs, off, n);
      } else {
        assert !IsLeadingEmpty(fs, off, n);
        assert !HasLeadingEmpty(fs, off);
      }
    }
  }

  lemma SelectOneMore(fields: seq<FieldInfo>, off: u64, best: Option<nat>, f: FieldInfo)
    requires IsSelected(fields, off, best) && (best.Some? ==> best.value < |fields|)
    requires Exact(f, off) ==> Covers(f, off)
    ensures IsSelected(fields + [f], off, Choose(fields, off, best, f))
  {
    if HasExact(fields, off) || Exact(f, off) {
      SelectWithExact(fields, off, best, f);
    } else {
      SelectWithoutExact(fields, off, best, f);
    }
  }

  /** One round of the loop below. */
  lemma SelectNext(fields: seq<FieldInfo>, off: u64, i: nat, before: Option<nat>, best: Option<nat>)
    requires i < |fields| && (before.Some? ==> before.value < i) && best == Choose(fields[..i], off, before, fields[i])
    requires NoWrapAt(fields, off) ==> IsSelected(fields[..i], off, before)
    ensures NoWrapAt(fields, off) ==> IsSelected(fields[..i + 1], off, best)
  {
    if NoWrapAt(fields, off) {
      assert fields[i] in fields;
      SelectOneMore(fields[..i], off, before, fields[i]);
      assert fields[..i + 1] == fields[..i] + [fields[i]];
    }
  }

  /** With nothing covering the offset, some field starting there is a leading empty one. */
  lemma FirstEmpty(fields: seq<FieldInfo>, off: u64, j: nat)
    requires j < |fields| && StartsAt(fields[j], off) && fields[j].byteSize == 0
    requires forall i :: 0 <= i < |fields| ==> !Covers(fields[i], off) && !Exact(fields[i], off)
    ensures exists i: nat :: IsLeadingEmpty(fields, off, i)
  {
    if i :| 0 <= i < j && StartsAt(fields[i], off) {
      FirstEmpty(fields, off, i);
    } else {
      assert IsLeadingEmpty(fields, off, j);
    }
  }

  /** `resolve_field_at_offset` over one type's fields; `None` is `nullopt`. */
  method SelectField(fields: seq<FieldInfo>, off: u64) returns (best: Option<nat>)
    ensures best.Some? ==>
      best.value < |fields| && (StartsAt(fields[best.value], off) || Covers(fields[best.value], off))
    ensures best == None ==> forall f <- fields :: !StartsAt(f, off) && !Covers(f, off)
    ensures NoWrapAt(fields, off) ==> IsSelected(fields, off, best)
  {
    best := None;
    var bestDistance: u64 := TWO64 - 1;
    var i := 0;
    while i < |fields|
      invariant 0 <= i <= |fields|
      invariant best.Some? ==> best.value < i && (StartsAt(fields[best.value], off) || Covers(fields[best.value], off))
      invariant bestDistance == if best.Some? then off - fields[best.value].byteOffset else TWO64 - 1
      invariant best == None ==> forall j :: 0 <= j < i ==> !StartsAt(fields[j], off) && !Covers(fields[j], off)
      invariant NoWrapAt(fields, off) ==> IsSelected(fields[..i], off, best)
    {
      ghost var before := best;
      var f := fields[i];
      if off == f.byteOffset {
        if best == None || f.byteSize > fields[best.value].byteSize {
          best, bestDistance := Some(i), 0;
        }
      }
      if f.byteSize > 0 && off >= f.byteOffset && off < Wrap64(f.byteOffset + f.byteSize) {
        var dist := off - f.byteOffset;
        if dist < bestDistance {
          best, bestDistance := Some(i), dist;
        }
      }
      SelectNext(fields, off, i, before, best);
      i := i + 1;
    }
    assert fields[..i] == fields;
  }

  /** An example: of the members of a union the earliest of the largest is selected. */
  lemma UnionSelection(a: FieldInfo, b: FieldInfo, c: FieldInfo, r: Option<nat>)
    requires a.byteOffset == 8 && a.byteSize == 4 && b.byteOffset == 8 && b.byteSize == 8
    requires c.byteOffset == 8 && c.byteSize == 8 && IsSelected([a, b, c], 8, r)
    ensures r == Some(1)
  {
    assert Exact([a, b, c][1], 8);
  }

  /** Another: of the fields around the offset the one that starts last, whatever their sizes. */
  lemma NestedSelection(a: FieldInfo, b: FieldInfo, c: FieldInfo, r: Option<nat>)
    requires a.byteOffset == 0 && a.byteSize == 32 && b.byteOffset == 8 && b.byteSize == 2
    requires c.byteOffset == 8 && c.byteSize == 8
    ensures IsSelected([a, b, c], 12, r) ==> r == Some(2)
    ensures IsSelected([a, b, c], 9, r) ==> r == Some(1)
    ensures IsSelected([a, b, c], 32, r) ==> r == None
  {
    var fields := [a, b, c];
    assert Covers(fields[2], 12) && Covers(fields[1], 9);
  }

  /** And an empty field at the offset only if no field around it comes first. */
  lemma EmptySelection(a: FieldInfo, b: FieldInfo, r: Option<nat>)
    requires a.byteOffset == 12 && a.byteSize == 0 && b.byteOffset == 8 && b.byteSize == 8
    ensures IsSelected([a, b], 12, r) || IsSelected([b, a], 12, r) ==> r == Some(0)
  {
    assert IsLeadingEmpty([a, b], 12, 0);
    assert Covers([b, a][0], 12);
  }

  predicate FieldsDisjoint(fields: seq<FieldInfo>) {
    && (forall f <- fields :: f.byteSize > 0)
    && forall i, j :: 0 <= i < j < |fields| ==>
         || fields[i].byteOffset + fields[i].byteSize <= fields[j].byteOffset
         || fields[j].byteOffset + fields[j].byteSize <= fields[i].byteOffset
  }

  /** For disjoint fields of positive size the selection is the one field that covers the offset. */
  lemma DisjointSelection(fields: seq<FieldInfo>, off: u64, r: Option<nat>)
    requires FieldsDisjoint(fields) && NoWrap(fields) && IsSelected(fields, off, r)
    ensures r.Some? ==> r.value < |fields|
    ensures forall f <- fields :: Covers(f, off) <==> r.Some? && f == fields[r.value]
  {
  }

  /** So the order in which the fields are listed does not matter. */
  lemma SelectionIgnoresOrder(
      fields: seq<FieldInfo>, fields': seq<FieldInfo>, off: u64, r: Option<nat>, r': Option<nat>)
    requires FieldsDisjoint(fields) && FieldsDisjoint(fields') && NoWrap(fields)
    requires multiset(fields) == multiset(fields')
    requires IsSelected(fields, off, r) && IsSelected(fields', off, r')
    ensures r.Some? <==> r'.Some?
    ensures r.Some? ==> r.value < |fields| && r'.value < |fields'| && fields[r.value] == fields'[r'.value]
  {
    forall f ensures f in fields <==> f in fields' {
      assert f in multiset(fields) <==> f in multiset(fields');
    }
    DisjointSelection(fields, off, r);
    DisjointSelection(fields', off, r');
    if r.Some? { assert fields[r.value] in fields; }
    if r'.Some? { assert fields'[r'.value] in fields'; }
  }

  // ----- types and subprograms by name -----

  function TypeNames(types: seq<TypeInfo>): (keys: seq<string>)
    ensures |keys| == |types|
  {
    seq(|types|, i requires 0 <= i < |types| => types[i].name)
  }

  function DieOffsets(types: seq<TypeInfo>): (keys: seq<u64>)
    ensures |keys| == |types|
  {
    seq(|types|, i requires 0 <= i < |types| => types[i].dieOffset)
  }

  /** The last type of that name: a later definition replaces an earlier one. */
  function TypeNamed(types: seq<TypeInfo>, name: string): (t: Option<TypeInfo>)
    ensures t.Some? ==> t.value in types && t.value.name == name
    ensures t == None ==> forall u <- types :: u.name != name
  {
    var keys := TypeNames(types);
    var i := LastIndex(keys, name);
    assert forall j :: 0 <= j < |types| ==> types[j].name == keys[j];
    if i < 0 then None else Some(types[i])
  }

  function TypeAtDie(types: seq<TypeInfo>, dieOffset: u64): Option<TypeInfo> {
    var i := LastIndex(DieOffsets(types), dieOffset);
    if i < 0 then None else Some(types[i])
  }

  ghost predicate UniqueNames(types: seq<TypeInfo>) {
    forall i, j :: 0 <= i < j < |types| ==> types[i].name != types[j].name
  }

  ghost predicate UniqueDieOffsets(types: seq<TypeInfo>) {
    forall i, j :: 0 <= i < j < |types| ==> types[i].dieOffset != types[j].dieOffset
  }

  lemma TypeNamedUnique(types: seq<TypeInfo>, t: TypeInfo)
    requires UniqueNames(types) && t in types
    ensures TypeNamed(types, t.name) == Some(t)
  {
  }

  lemma TypeAtDieUnique(types: seq<TypeInfo>, t: TypeInfo)
    requires UniqueDieOffsets(types) && t in types
    ensures TypeAtDie(types, t.dieOffset) == Some(t)
  {
    var i :| 0 <= i < |types| && types[i] == t;
    assert DieOffsets(types)[i] == t.dieOffset;
  }

  predicate Answers(sp: SubprogramInfo, name: string) {
    sp.name == name || (sp.linkageName != "" && sp.linkageName == name)
  }

  /** The last subprogram with that name or linkage name, or -1. */
  function LastSubprogram(subprograms: seq<SubprogramInfo>, name: string): (i: int)
    ensures -1 <= i < |subprograms|
    ensures i >= 0 ==> Answers(subprograms[i], name)
    ensures forall j :: i < j < |subprograms| ==> !Answers(subprograms[j], name)
  {
    if subprograms == [] then -1
    else if Answers(subprograms[|subprograms| - 1], name) then |subprograms| - 1
    else LastSubprogram(subprograms[..|subprograms| - 1], name)
  }

  ghost predicate IsSubprogramIndex(index: map<string, nat>, subprograms: seq<SubprogramInfo>) {
    forall name: string ::
      && (name in index <==> LastSubprogram(subprograms, name) >= 0)
      && (name in index ==> index[name] == LastSubprogram(subprograms, name))
  }

  method BuildSubprogramIndex(subprograms: seq<SubprogramInfo>) returns (index: map<string, nat>)
    ensures IsSubprogramIndex(index, subprograms)
  {
    index := map[];
    var i := 0;
    while i < |subprograms|
      invariant 0 <= i <= |subprograms|
      invariant IsSubprogramIndex(index, subprograms[..i])
    {
      assert subprograms[..i + 1][..i] == subprograms[..i];
      index := index[subprograms[i].name := i];
      if subprograms[i].linkageName != "" {
        index := index[subprograms[i].linkageName := i];
      }
      i := i + 1;
    }
    assert subprograms[..i] == subprograms;
  }

  // ----- pointer targets at a call site -----

  predicate InRange(sp: SubprogramInfo, pc: u64) {
    sp.lowPc <= pc < EndPc(sp)
  }

  /** The named targets of a subprogram's pointer variables. */
  function Targets(locals: seq<LocalVariable>): (names: seq<string>)
    ensures forall name <- names :: name != ""
  {
    if locals == [] then []
    else
      var init, last := Targets(locals[..|locals| - 1]), locals[|locals| - 1];
      if last.isPointer && last.targetTypeName != "" then init + [last.targetTypeName] else init
  }

  /** Lexicographic order of `std::string`. */
  predicate TextLess(a: string, b: string) {
    if b == "" then false
    else if a == "" then true
    else if a[0] != b[0] then a[0] < b[0]
    else TextLess(a[1..], b[1..])
  }

  lemma {:induction false} TextLessTotal(a: string, b: string)
    ensures a == b || TextLess(a, b) || TextLess(b, a)
  {
    if a != "" && b != "" && a[0] == b[0] {
      TextLessTotal(a[1..], b[1..]);
      assert a == [a[0]] + a[1..] && b == [b[0]] + b[1..];
    }
  }

  predicate StrictlyAscending(names: seq<string>) {
    forall i :: 0 < i < |names| ==> TextLess(names[i - 1], names[i])
  }

  function InsertName(name: string, names: seq<string>): (r: seq<string>)
    requires StrictlyAscending(names)
    ensures StrictlyAscending(r) && r != []
    ensures forall x :: x in r <==> x == name || x in names
    ensures r[0] == name || (names != [] && r[0] == names[0])
  {
    if names == [] || TextLess(name, names[0]) then [name] + names
    else if name == names[0] then names
    else
      TextLessTotal(name, names[0]);
      [names[0]] + InsertName(name, names[1..])
  }

  /** The last type of that name. */
  lemma TypeNamedIsLast(types: seq<TypeInfo>, name: string, i: nat)
    requires i < |types| && types[i].name == name && forall j :: i < j < |types| ==> types[j].name != name
    ensures TypeNamed(types, name) == Some(types[i])
  {
    assert TypeNames(types)[i] == name;
  }

  /** The last type at that offset. */
  lemma TypeAtDieIsLast(types: seq<TypeInfo>, dieOffset: u64, i: nat)
    requires i < |types| && types[i].dieOffset == dieOffset
    requires forall j :: i < j < |types| ==> types[j].dieOffset != dieOffset
    ensures TypeAtDie(types, dieOffset) == Some(types[i])
  {
    assert DieOffsets(types)[i] == dieOffset;
  }

  /** The last subprogram of that name, plain or linkage. */
  lemma LastSubprogramIff(subprograms: seq<SubprogramInfo>, name: string, i: int)
    requires name != ""
    ensures i == LastSubprogram(subprograms, name) <==>
      && -1 <= i < |subprograms|
      && (i >= 0 ==> name in {subprograms[i].name, subprograms[i].linkageName})
      && forall j :: i < j < |subprograms| ==> name !in {subprograms[j].name, subprograms[j].linkageName}
  {
  }

  /** Sorted and without duplicates. */
  function SortedDistinct(names: seq<string>): (r: seq<string>)
    ensures StrictlyAscending(r)
    ensures forall x :: x in r <==> x in names
  {
    if names == [] then [] else InsertName(names[0], SortedDistinct(names[1..]))
  }

  /** The first subprogram whose range contains `pc` decides. */
  function PointerTargetsAt(subprograms: seq<SubprogramInfo>, pc: u64): (r: seq<string>)
    ensures forall name <- r :: name != ""
  {
    if subprograms == [] then []
    else if InRange(subprograms[0], pc) then SortedDistinct(Targets(subprograms[0].locals))
    else PointerTargetsAt(subprograms[1..], pc)
  }

  /** The subprogram's code holds `pc`: `highPc` counts from `lowPc` or is the end, and nothing wraps. */
  predicate HoldsPc(sp: SubprogramInfo, pc: u64) {
    if sp.highPcIsOffset then sp.lowPc <= pc < sp.lowPc + sp.highPc < TWO64 else sp.lowPc <= pc < sp.highPc
  }

  lemma {:induction false} TargetsMembers(locals: seq<LocalVariable>, x: string)
    ensures x in Targets(locals) <==> x != "" && exists v <- locals :: v.isPointer && v.targetTypeName == x
  {
    if locals != [] {
      var init, last := locals[..|locals| - 1], locals[|locals| - 1];
      TargetsMembers(init, x);
      assert locals == init + [last];
    }
  }

  /** The types found at a program counter are the named targets of the pointer variables of the first subprogram
      whose code holds it. */
  lemma {:induction false} PointerTargetsMeaning(subprograms: seq<SubprogramInfo>, pc: u64, i: nat, x: string)
    requires i < |subprograms| && HoldsPc(subprograms[i], pc)
    requires forall k :: 0 <= k < i ==> !HoldsPc(subprograms[k], pc)
    ensures x in PointerTargetsAt(subprograms, pc) <==>
      x != "" && exists v <- subprograms[i].locals :: v.isPointer && v.targetTypeName == x
  {
    if i == 0 {
      TargetsMembers(subprograms[0].locals, x);
    } else {
      assert !HoldsPc(subprograms[0], pc);
      PointerTargetsMeaning(subprograms[1..], pc, i - 1, x);
    }
  }

  /** There are none when no subprogram's code holds it. */
  lemma {:induction false} NoPointerTargets(subprograms: seq<SubprogramInfo>, pc: u64)
    requires forall k :: 0 <= k < |subprograms| ==> !HoldsPc(subprograms[k], pc)
    ensures PointerTargetsAt(subprograms, pc) == []
  {
    if subprograms != [] {
      assert !HoldsPc(subprograms[0], pc);
      NoPointerTargets(subprograms[1..], pc);
    }
  }

  // ----- fields by type name -----

  function FieldOf(fields: seq<FieldInfo>, best: Option<nat>): Option<FieldInfo> {
    match best
    case None => None
    case Some(i) => if i < |fields| then Some(fields[i]) else None
  }

  /** `field` is the selection among the fields: it starts at or covers the offset, there is none only if no
      field does, and it is chosen as `IsSelected` says. */
  ghost predicate IsFieldChoice(fields: seq<FieldInfo>, off: u64, field: Option<FieldInfo>) {
    && (field.Some? ==> field.value in fields && (StartsAt(field.value, off) || Covers(field.value, off)))
    && (field == None ==> forall f <- fields :: !StartsAt(f, off) && !Covers(f, off))
    && (NoWrapAt(fields, off) ==> exists best :: IsSelected(fields, off, best) && field == FieldOf(fields, best))
  }

  /** `field` answers a look-up by type name: the selection among that type's fields. */
  ghost predicate IsResolved(types: seq<TypeInfo>, typeName: string, off: u64, field: Option<FieldInfo>) {
    var t := TypeNamed(types, typeName);
    if t == None || TypeAtDie(types, t.value.dieOffset) == None then field == None
    else IsFieldChoice(TypeAtDie(types, t.value.dieOffset).value.fields, off, field)
  }

  /** The fields a type name leads to. */
  function TypeFields(types: seq<TypeInfo>, name: string): seq<FieldInfo> {
    match TypeNamed(types, name)
    case None => []
    case Some(t) =>
      match TypeAtDie(types, t.dieOffset)
      case None => []
      case Some(u) => u.fields
  }

  /** The field starts at the offset or holds its byte. */
  predicate LiesAt(f: FieldInfo, off: u64) {
    f.byteOffset == off || f.byteOffset <= off < f.byteOffset + f.byteSize < TWO64
  }

  /** A look-up by type name and offset gives a field of that type that lies there, if there is one. */
  lemma ResolvedLies(types: seq<TypeInfo>, name: string, off: u64, field: Option<FieldInfo>)
    requires IsResolved(types, name, off, field)
    ensures match field
      case None => forall g <- TypeFields(types, name) :: !LiesAt(g, off)
      case Some(f) => f in TypeFields(types, name) && LiesAt(f, off)
  {
  }

  /** If the fields are disjoint it is the only one. */
  lemma ResolvedIsOnly(types: seq<TypeInfo>, name: string, off: u64, field: Option<FieldInfo>)
    requires IsResolved(types, name, off, field)
    requires FieldsDisjoint(TypeFields(types, name)) && NoWrap(TypeFields(types, name))
    ensures forall g <- TypeFields(types, name) :: LiesAt(g, off) <==> field == Some(g)
  {
    var fields := TypeFields(types, name);
    if TypeNamed(types, name).Some? && TypeAtDie(types, TypeNamed(types, name).value.dieOffset).Some? {
      assert NoWrapAt(fields, off);
      var best :| IsSelected(fields, off, best) && field == FieldOf(fields, best);
      DisjointSelection(fields, off, best);
    }
  }

  /** With distinct DIE offsets the field is one of the named type's own. */
  lemma ResolvedInNamedType(types: seq<TypeInfo>, t: TypeInfo, off: u64, field: Option<FieldInfo>)
    requires UniqueNames(types) && UniqueDieOffsets(types) && t in types && IsResolved(types, t.name, off, field)
    ensures IsFieldChoice(t.fields, off, field)
  {
    TypeNamedUnique(types, t);
    TypeAtDieUnique(types, t);
  }

  /** A typedef of the same name, which the reader stores without fields, hides a structure from the look-up. */
  lemma TypedefHidesFields(struct: TypeInfo, alias: TypeInfo, off: u64, field: Option<FieldInfo>)
    requires struct.name == alias.name && struct.dieOffset != alias.dieOffset && alias.fields == []
    requires IsResolved([struct, alias], struct.name, off, field)
    ensures field == None
  {
    var types := [struct, alias];
    assert TypeNames(types)[1] == struct.name && DieOffsets(types)[1] == alias.dieOffset;
    assert TypeNamed(types, struct.name) == Some(alias);
  }

  // ----- the analyzer -----

  class DwarfAnalyzer {
    var symbols: seq<SymbolInfo>
    var types: seq<TypeInfo>
    var subprograms: seq<SubprogramInfo>
    var symbolAddrIndex: map<u64, nat>
    var typeNameIndex: map<string, nat>
    var typeOffsetIndex: map<u64, nat>
    var subprogramNameIndex: map<string, nat>

    ghost predicate Valid()
      reads this
    {
      && SymbolsSorted(symbols)
      && IsIndexOf(symbolAddrIndex, SymbolAddresses(symbols))
      && IsIndexOf(typeNameIndex, TypeNames(types))
      && IsIndexOf(typeOffsetIndex, DieOffsets(types))
      && IsSubprogramIndex(subprogramNameIndex, subprograms)
    }

    /** `parsed`, `types` and `subprograms` are what the readers delivered, `sorted` what `std::sort` made of
        the symbols. */
    constructor (
        ghost parsed: seq<SymbolInfo>, sorted: seq<SymbolInfo>, types: seq<TypeInfo>, subprograms: seq<SubprogramInfo>)
      requires SymbolsSorted(sorted) && multiset(sorted) == multiset(parsed)
      ensures Valid() && multiset(symbols) == multiset(parsed)
      ensures this.symbols == sorted && this.types == types && this.subprograms == subprograms
    {
      this.symbols, this.types, this.subprograms := sorted, types, subprograms;
      var byAddress := BuildIndex(SymbolAddresses(sorted));
      var byName := BuildIndex(TypeNames(types));
      var byOffset := BuildIndex(DieOffsets(types));
      var subprogramsByName := BuildSubprogramIndex(subprograms);
      symbolAddrIndex, typeNameIndex, typeOffsetIndex, subprogramNameIndex :=
        byAddress, byName, byOffset, subprogramsByName;
    }

    method FindTypeByName(name: string) returns (t: Option<TypeInfo>)
      requires Valid()
      ensures t == TypeNamed(types, name)
    {
      return if name in typeNameIndex then Some(types[typeNameIndex[name]]) else None;
    }

    method FindTypeByOffset(dieOffset: u64) returns (t: Option<TypeInfo>)
      requires Valid()
      ensures t == TypeAtDie(types, dieOffset)
    {
      return if dieOffset in typeOffsetIndex then Some(types[typeOffsetIndex[dieOffset]]) else None;
    }

    method FindSubprogramByName(name: string) returns (i: Option<nat>)
      requires Valid()
      ensures i == if LastSubprogram(subprograms, name) < 0 then None else Some(LastSubprogram(subprograms, name))
    {
      return if name in subprogramNameIndex then Some(subprogramNameIndex[name]) else None;
    }

    /** Index hit first, whatever the symbol's size; otherwise the symbol before the upper bound, if it reaches
        far enough. */
    method FindSymbolByAddr(addr: u64) returns (r: Option<nat>)
      requires Valid()
      ensures r == SymbolAt(symbols, addr)
    {
      if symbols == [] { return None; }
      if addr in symbolAddrIndex {
        LastStartIsGreatestStart(symbols, addr);
        assert symbols[symbolAddrIndex[addr]].address == SymbolAddresses(symbols)[symbolAddrIndex[addr]];
        return Some(symbolAddrIndex[addr]);
      }
      UpperBoundIsGreatestStart(symbols, addr);
      var ub := UpperBound(SymbolAddresses(symbols), addr);
      if ub == 0 { return None; }
      assert SymbolAddresses(symbols)[ub - 1] != addr;
      return if InExtent(symbols[ub - 1], addr) then Some(ub - 1) else None;
    }

    /** By type name, then by that type's DIE offset, then the best field. */
    method ResolveFieldAtOffset(typeName: string, off: u64) returns (field: Option<FieldInfo>)
      requires Valid()
      ensures IsResolved(types, typeName, off, field)
    {
      var t := FindTypeByName(typeName);
      if t == None { return None; }
      var u := FindTypeByOffset(t.value.dieOffset);
      if u == None { return None; }
      var best := SelectField(u.value.fields, off);
      field := FieldOf(u.value.fields, best);
    }

    method FindPointerTargetTypesAtPc(pc: u64) returns (results: seq<string>)
      ensures results == PointerTargetsAt(subprograms, pc)
    {
      results := [];
      var i := 0;
      while i < |subprograms|
        invariant 0 <= i <= |subprograms|
        invariant PointerTargetsAt(subprograms, pc) == PointerTargetsAt(subprograms[i..], pc)
      {
        var sp := subprograms[i];
        var inRange :=
          if sp.highPcIsOffset then sp.lowPc <= pc < Wrap64(sp.lowPc + sp.highPc) else sp.lowPc <= pc < sp.highPc;
        assert subprograms[i..][1..] == subprograms[i + 1..];
        if inRange {
          results := CollectTargets(sp.locals);
          results := SortedDistinct(results);
          return;
        }
        i := i + 1;
      }
    }
  }

  method CollectTargets(locals: seq<LocalVariable>) returns (names: seq<string>)
    ensures names == Targets(locals)
  {
    names := [];
    var i := 0;
    while i < |locals|
      invariant 0 <= i <= |locals|
      invariant names == Targets(locals[..i])
    {
      assert locals[..i + 1][..i] == locals[..i];
      if locals[i].isPointer && locals[i].targetTypeName != "" {
        names := names + [locals[i].targetTypeName];
      }
      i := i + 1;
    }
    assert locals[..i] == locals;
  }
}
