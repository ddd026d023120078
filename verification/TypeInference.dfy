/** Which type a heap allocation holds: call-site frames first, then the functions on the stack, then the
    allocation's size. Confidence numbers and notes are left out, except the source threshold. */
module TypeInference {
  import opened Words
  import opened Dwarf
  import opened LoadBase

  /** The answer of the source-text analyser at a program counter. */
  datatype SourceGuess = SourceGuess(typeName: string, how: string, confidence: real)

  datatype Inference = Inference(typeName: string, allocCount: u64, how: string)

  /** Everything inference looks at. */
  datatype Binary = Binary(
    types: seq<TypeInfo>, symbols: seq<SymbolInfo>, subprograms: seq<SubprogramInfo>, ranges: seq<Range>,
    source: u64 -> SourceGuess)

  const NOTHING: Inference := Inference("", 1, "")

  // ----- size candidates -----

  predicate HasSize(t: TypeInfo, size: u64) {
    t.byteSize > 0 && t.fields != [] && t.byteSize == size
  }

  /** The names of the types of that size that have fields, in order. */
  function SizeCandidates(types: seq<TypeInfo>, size: u64): seq<string> {
    if types == [] then []
    else
      var init, t := SizeCandidates(types[..|types| - 1], size), types[|types| - 1];
      if HasSize(t, size) then init + [t.name] else init
  }

  /** Their positions. */
  function SizePositions(types: seq<TypeInfo>, size: u64): (ps: seq<nat>)
    ensures forall p <- ps :: p < |types|
  {
    if types == [] then []
    else
      var n := |types| - 1;
      var init := SizePositions(types[..n], size);
      if HasSize(types[n], size) then init + [n] else init
  }

  /** Exactly the positions of the types of that size, ascending. */
  lemma {:induction false} SizePositionsExact(types: seq<TypeInfo>, size: u64)
    ensures forall p: nat :: p in SizePositions(types, size) <==> p < |types| && HasSize(types[p], size)
    ensures forall i, j :: 0 <= i < j < |SizePositions(types, size)| ==>
      SizePositions(types, size)[i] < SizePositions(types, size)[j]
  {
    if types != [] {
      var init := types[..|types| - 1];
      SizePositionsExact(init, size);
      assert forall i :: 0 <= i < |SizePositions(init, size)| ==>
        SizePositions(init, size)[i] in SizePositions(init, size);
    }
  }

  ghost predicate IsSizeIndex(index: map<u64, seq<nat>>, types: seq<TypeInfo>) {
    forall size: u64 ::
      && (size in index <==> SizePositions(types, size) != [])
      && (size in index ==> index[size] == SizePositions(types, size))
  }

  method BuildSizeIndex(types: seq<TypeInfo>) returns (index: map<u64, seq<nat>>)
    ensures IsSizeIndex(index, types)
  {
    index := map[];
    var i := 0;
    while i < |types|
      invariant 0 <= i <= |types|
      invariant IsSizeIndex(index, types[..i])
    {
      assert types[..i + 1][..i] == types[..i];
      var size := types[i].byteSize;
      if size > 0 && types[i].fields != [] {
        index := index[size := (if size in index then index[size] else []) + [i]];
      }
      i := i + 1;
    }
    assert types[..i] == types;
  }

  function NamesAt(types: seq<TypeInfo>, ps: seq<nat>): (names: seq<string>)
    requires forall p <- ps :: p < |types|
    ensures |names| == |ps|
  {
    seq(|ps|, i requires 0 <= i < |ps| => assert ps[i] in ps; types[ps[i]].name)
  }

  lemma {:induction false} PositionsNameCandidates(types: seq<TypeInfo>, size: u64)
    ensures NamesAt(types, SizePositions(types, size)) == SizeCandidates(types, size)
  {
    if types != [] {
      var n := |types| - 1;
      PositionsNameCandidates(types[..n], size);
      var ps := SizePositions(types[..n], size);
      assert NamesAt(types, ps) == NamesAt(types[..n], ps) by {
        assert forall i :: 0 <= i < |ps| ==> ps[i] in ps;
      }
    }
  }

  /** The index delivers exactly the linear filter. */
  method GetSizeCandidates(types: seq<TypeInfo>, index: map<u64, seq<nat>>, size: u64) returns (names: seq<string>)
    requires IsSizeIndex(index, types)
    ensures names == SizeCandidates(types, size)
  {
    names := [];
    PositionsNameCandidates(types, size);
    if size !in index { return; }
    var ps := index[size];
    var i := 0;
    while i < |ps|
      invariant 0 <= i <= |ps|
      invariant names == NamesAt(types, ps)[..i]
    {
      assert ps[i] in ps;
      names := names + [types[ps[i]].name];
      i := i + 1;
    }
  }

  /** The candidates of `cs` that also occur in `ss`, in the order of `cs`. */
  function Common(cs: seq<string>, ss: seq<string>): seq<string> {
    if cs == [] then [] else (if cs[0] in ss then [cs[0]] else []) + Common(cs[1..], ss)
  }

  lemma {:induction false} CommonMembers(cs: seq<string>, ss: seq<string>)
    ensures forall c :: c in Common(cs, ss) <==> c in cs && c in ss
  {
    if cs != [] {
      CommonMembers(cs[1..], ss);
    }
  }

  lemma CommonFirst(c: string, cs: seq<string>, ss: seq<string>)
    ensures Common([c] + cs, ss) == (if c in ss then [c] else []) + Common(cs, ss)
  {
  }

  /** An order-preserving filter: it acts on each part of a list by itself. */
  lemma {:induction false} CommonOfParts(cs: seq<string>, cs': seq<string>, ss: seq<string>)
    ensures Common(cs + cs', ss) == Common(cs, ss) + Common(cs', ss)
  {
    if cs == [] {
      assert cs + cs' == cs';
    } else {
      var c, rest := cs[0], cs[1..];
      var head := if c in ss then [c] else [];
      CommonOfParts(rest, cs', ss);
      CommonFirst(c, rest + cs', ss);
      assert cs + cs' == [c] + (rest + cs');
      Regroup(head, Common(rest, ss), Common(cs', ss));
    }
  }

  lemma Regroup(a: seq<string>, b: seq<string>, c: seq<string>)
    ensures a + (b + c) == (a + b) + c
  {
  }

  /** The two nested loops that intersect candidate lists. */
  method Intersect(cs: seq<string>, ss: seq<string>) returns (r: seq<string>)
    ensures r == Common(cs, ss)
  {
    r := [];
    var i := 0;
    while i < |cs|
      invariant 0 <= i <= |cs|
      invariant r + Common(cs[i..], ss) == Common(cs, ss)
    {
      assert cs[i..][1..] == cs[i + 1..];
      var j, found := 0, false;
      while j < |ss| && !found
        invariant 0 <= j <= |ss|
        invariant found <==> cs[i] in ss[..j]
      {
        assert ss[..j + 1] == ss[..j] + [ss[j]];
        if cs[i] == ss[j] { found := true; }
        j := j + 1;
      }
      assert found <==> cs[i] in ss by {
        if !found { assert ss[..j] == ss; }
      }
      if found { r := r + [cs[i]]; }
      i := i + 1;
    }
  }

  // ----- element counts -----

  /** How many elements of the named type fill the allocation exactly; 1 if they do not. */
  function CountFor(types: seq<TypeInfo>, name: string, size: u64): u64 {
    match TypeNamed(types, name)
    case Some(t) => if t.byteSize > 0 && size % t.byteSize == 0 then size / t.byteSize else 1
    case None => 1
  }

  /** Several elements are counted exactly when that many of the named type make up the allocation. */
  lemma CountForIff(types: seq<TypeInfo>, name: string, size: u64, n: int)
    requires n > 1
    ensures CountFor(types, name, size) == n <==>
      TypeNamed(types, name).Some? && n * TypeNamed(types, name).value.byteSize == size > 0
  {
    if TypeNamed(types, name).Some? {
      QuotientIff(size, TypeNamed(types, name).value.byteSize, n);
    }
  }

  lemma QuotientIff(x: nat, d: nat, n: int)
    requires n > 1
    ensures d > 0 && x % d == 0 && x / d == n <==> n * d == x > 0
  {
    if d > 0 {
      assert x == x / d * d + x % d;
      if n * d == x { DivUnique(x, d, n, 0); }
    }
  }

  // ----- frames -----

  function CallerPc(pc: u64): u64 { if pc > 0 then pc - 1 else pc }

  /** The frame lies in the binary, and the source text or a pointer variable there names a type. */
  predicate Informative(b: Binary, pc: u64) {
    InTarget(b.ranges, CallerPc(pc))
    && var file := VaToFile(b.ranges, CallerPc(pc));
       || (b.source(file).typeName != "" && b.source(file).confidence >= 0.5)
       || PointerTargetsAt(b.subprograms, file) != []
  }

  /** What one frame settles, if anything. */
  function FrameVerdict(b: Binary, size: u64, pc: u64): Option<Inference> {
    if !InTarget(b.ranges, CallerPc(pc)) then None
    else
      var file := VaToFile(b.ranges, CallerPc(pc));
      var guess := b.source(file);
      if guess.typeName != "" && guess.confidence >= 0.5 then
        Some(Inference(guess.typeName, CountFor(b.types, guess.typeName, size), guess.how))
      else
        var pcTypes := PointerTargetsAt(b.subprograms, file);
        if pcTypes == [] then None
        else if |pcTypes| == 1 then Some(Inference(pcTypes[0], CountFor(b.types, pcTypes[0], size), "callsite_pc"))
        else
          var common := Common(pcTypes, SizeCandidates(b.types, size));
          if |common| == 1 then Some(Inference(common[0], CountFor(b.types, common[0], size), "combined"))
          else if |common| > 1 then Some(Inference(common[0], 1, "combined_ambiguous"))
          else Some(Inference(pcTypes[0], 1, "callsite_ambiguous"))
  }

  lemma VerdictIffInformative(b: Binary, size: u64, pc: u64)
    ensures FrameVerdict(b, size, pc).Some? <==> Informative(b, pc)
    ensures Informative(b, pc) <==>
      var caller := if pc == 0 then 0 else pc - 1;
      var guess := b.source(VaToFile(b.ranges, caller));
      && InTarget(b.ranges, caller)
      && (guess.typeName == "" || guess.confidence < 0.5 ==>
            PointerTargetsAt(b.subprograms, VaToFile(b.ranges, caller)) != [])
    ensures FrameVerdict(b, size, pc).Some? ==> FrameVerdict(b, size, pc).value.typeName != ""
  {
    var file := VaToFile(b.ranges, CallerPc(pc));
    var pcTypes := PointerTargetsAt(b.subprograms, file);
    var common := Common(pcTypes, SizeCandidates(b.types, size));
    assert pcTypes != [] ==> pcTypes[0] in pcTypes;
    CommonMembers(pcTypes, SizeCandidates(b.types, size));
    assert common != [] ==> common[0] in common;
  }

  /** A candidate list has been narrowed by size: the choice is one of the candidates, and one of the right
      size if any candidate has it. */
  ghost predicate NarrowedBySize(types: seq<TypeInfo>, size: u64, candidates: seq<string>, choice: string) {
    && choice in candidates
    && (|candidates| > 1 && (exists c <- candidates :: c in SizeCandidates(types, size)) ==>
          choice in SizeCandidates(types, size))
  }

  lemma CommonChoice(types: seq<TypeInfo>, size: u64, candidates: seq<string>)
    requires |candidates| > 1
    ensures var common := Common(candidates, SizeCandidates(types, size));
      NarrowedBySize(types, size, candidates, if common != [] then common[0] else candidates[0])
  {
    var sizes := SizeCandidates(types, size);
    var common := Common(candidates, sizes);
    CommonMembers(candidates, sizes);
    if common != [] {
      assert common[0] in common;
    } else {
      assert forall c <- candidates :: c in sizes ==> c in common;
      assert candidates[0] in candidates;
    }
  }

  /** The first candidate that has the size, else the first candidate. */
  ghost predicate IsFirstChoice(sizes: seq<string>, candidates: seq<string>, choice: string) {
    exists i: nat :: i < |candidates| && candidates[i] == choice
      && (if candidates[i] in sizes then forall k :: 0 <= k < i ==> candidates[k] !in sizes
          else i == 0 && forall c <- candidates :: c !in sizes)
  }

  lemma {:induction false} FirstCommon(candidates: seq<string>, sizes: seq<string>) returns (i: nat)
    requires Common(candidates, sizes) != []
    ensures i < |candidates| && candidates[i] == Common(candidates, sizes)[0] && candidates[i] in sizes
    ensures forall k :: 0 <= k < i ==> candidates[k] !in sizes
  {
    if candidates[0] in sizes {
      i := 0;
    } else {
      var k := FirstCommon(candidates[1..], sizes);
      i := k + 1;
    }
  }

  lemma CommonIsFirstChoice(candidates: seq<string>, sizes: seq<string>)
    requires candidates != []
    ensures var common := Common(candidates, sizes);
      IsFirstChoice(sizes, candidates, if common != [] then common[0] else candidates[0])
  {
    var common := Common(candidates, sizes);
    CommonMembers(candidates, sizes);
    if common != [] {
      var i := FirstCommon(candidates, sizes);
      assert candidates[i] == common[0];
    } else {
      assert forall c <- candidates :: c in sizes ==> c in common;
      assert candidates[0] in candidates;
    }
  }

  /** A frame answers for the address just before its PC: with the confident source type there; without one, with the
      only pointer target there, or the first of several that has the allocation's size. Several elements are
      reported only for a source type, a single target, or the one target of the right size. */
  lemma VerdictMeaning(b: Binary, size: u64, pc: u64)
    requires FrameVerdict(b, size, pc).Some?
    ensures var v, file := FrameVerdict(b, size, pc).value, VaToFile(b.ranges, if pc == 0 then 0 else pc - 1);
      var targets, sizes := PointerTargetsAt(b.subprograms, file), SizeCandidates(b.types, size);
      var common := Common(targets, sizes);
      if b.source(file).typeName != "" && b.source(file).confidence >= 0.5 then
        && v.typeName == b.source(file).typeName && v.how == b.source(file).how
        && v.allocCount == CountFor(b.types, v.typeName, size)
      else if |targets| == 1 then
        && v.typeName == targets[0] && v.how == "callsite_pc" && v.allocCount == CountFor(b.types, v.typeName, size)
      else
        && targets != [] && IsFirstChoice(sizes, targets, v.typeName)
        && NarrowedBySize(b.types, size, targets, v.typeName)
        && v.allocCount == (if |common| == 1 then CountFor(b.types, v.typeName, size) else 1)
        && v.how == if |common| == 1 then "combined"
                    else if |common| > 1 then "combined_ambiguous" else "callsite_ambiguous"
  {
    var targets := PointerTargetsAt(b.subprograms, VaToFile(b.ranges, CallerPc(pc)));
    if targets != [] { CommonIsFirstChoice(targets, SizeCandidates(b.types, size)); }
    if |targets| > 1 {
      CommonChoice(b.types, size, targets);
    }
  }

  /** The verdict of the first informative frame from `i` on. */
  function FirstVerdict(b: Binary, size: u64, pcs: seq<u64>, i: nat): Option<Inference>
    decreases |pcs| - i
  {
    if i >= |pcs| then None
    else match FrameVerdict(b, size, pcs[i])
      case Some(v) => Some(v)
      case None => FirstVerdict(b, size, pcs, i + 1)
  }

  // ----- functions on the stack -----

  const SKIPPED: seq<string> := [
    "malloc", "free", "__libc_malloc", "__libc_free", "calloc", "realloc", "__libc_calloc", "__libc_realloc",
    "memalign", "__libc_memalign", "posix_memalign", "aligned_alloc", "valloc", "pvalloc"]

  /** The function a program counter is in, unless it is an allocator. */
  function FunctionAt(b: Binary, pc: u64): Option<string> {
    var mapped := SymbolAt(b.symbols, VaToFile(b.ranges, pc));
    var sym := if mapped.Some? then mapped else SymbolAt(b.symbols, pc);
    if sym == None || b.symbols[sym.value].name in SKIPPED then None else Some(b.symbols[sym.value].name)
  }

  /** The function is that of the symbol at the mapped address, or else at the address itself. */
  lemma FunctionAtIff(b: Binary, pc: u64, name: string)
    ensures FunctionAt(b, pc) == Some(name) <==>
      && name !in SKIPPED
      && var mapped, direct := SymbolAt(b.symbols, VaToFile(b.ranges, pc)), SymbolAt(b.symbols, pc);
         || (mapped.Some? && b.symbols[mapped.value].name == name)
         || (mapped == None && direct.Some? && b.symbols[direct.value].name == name)
  {
  }

  function FunctionsOf(b: Binary, pcs: seq<u64>): seq<string> {
    if pcs == [] then []
    else
      var init := FunctionsOf(b, pcs[..|pcs| - 1]);
      match FunctionAt(b, pcs[|pcs| - 1])
      case Some(name) => init + [name]
      case None => init
  }

  function TargetsOf(subprograms: seq<SubprogramInfo>, name: string): (names: seq<string>)
    ensures forall n <- names :: n != ""
  {
    var i := LastSubprogram(subprograms, name);
    if i < 0 then [] else Targets(subprograms[i].locals)
  }

  function AllTargets(subprograms: seq<SubprogramInfo>, names: seq<string>): (r: seq<string>)
    ensures forall n <- r :: n != ""
  {
    if names == [] then []
    else AllTargets(subprograms, names[..|names| - 1]) + TargetsOf(subprograms, names[|names| - 1])
  }

  /** The pointer types of all functions on the stack, sorted and without duplicates. */
  function StackTargets(b: Binary, pcs: seq<u64>): (r: seq<string>)
    ensures forall n <- r :: n != ""
  {
    SortedDistinct(AllTargets(b.subprograms, FunctionsOf(b, pcs)))
  }

  lemma {:induction false} FunctionsMembers(b: Binary, pcs: seq<u64>, name: string)
    ensures name in FunctionsOf(b, pcs) <==> exists pc <- pcs :: FunctionAt(b, pc) == Some(name)
  {
    if pcs != [] {
      var init, last := pcs[..|pcs| - 1], pcs[|pcs| - 1];
      FunctionsMembers(b, init, name);
      assert pcs == init + [last];
    }
  }

  /** Variable `v` of the last subprogram called `name` points to the type `x`. */
  ghost predicate HasPointerTo(subprograms: seq<SubprogramInfo>, name: string, x: string) {
    var i := LastSubprogram(subprograms, name);
    i >= 0 && exists v <- subprograms[i].locals :: v.isPointer && v.targetTypeName == x
  }

  lemma {:induction false} AllTargetsMembers(subprograms: seq<SubprogramInfo>, names: seq<string>, x: string)
    requires x != ""
    ensures x in AllTargets(subprograms, names) <==> exists name <- names :: HasPointerTo(subprograms, name, x)
  {
    if names != [] {
      var init, last := names[..|names| - 1], names[|names| - 1];
      AllTargetsMembers(subprograms, init, x);
      var i := LastSubprogram(subprograms, last);
      if i >= 0 { TargetsMembers(subprograms[i].locals, x); }
      assert x in TargetsOf(subprograms, last) <==> HasPointerTo(subprograms, last, x);
      assert names == init + [last];
    }
  }

  /** The candidates of the function pass are the named types that pointer variables of the functions on the stack
      point to. */
  lemma StackTargetsIff(b: Binary, pcs: seq<u64>, x: string)
    requires x != ""
    ensures x in StackTargets(b, pcs) <==>
      exists pc <- pcs :: FunctionAt(b, pc).Some? && HasPointerTo(b.subprograms, FunctionAt(b, pc).value, x)
  {
    var names := FunctionsOf(b, pcs);
    AllTargetsMembers(b.subprograms, names, x);
    if name :| name in names && HasPointerTo(b.subprograms, name, x) {
      FunctionsMembers(b, pcs, name);
    }
    if pc :| pc in pcs && FunctionAt(b, pc).Some? && HasPointerTo(b.subprograms, FunctionAt(b, pc).value, x) {
      FunctionsMembers(b, pcs, FunctionAt(b, pc).value);
    }
  }

  function FunctionPass(b: Binary, size: u64, targets: seq<string>): Inference {
    if targets == [] then NOTHING
    else if |targets| == 1 then Inference(targets[0], 1, "callsite_func")
    else
      var common := Common(targets, SizeCandidates(b.types, size));
      if |common| == 1 then Inference(common[0], 1, "callsite_func+size")
      else if |common| > 1 then Inference(common[0], 1, "callsite_func_ambiguous")
      else Inference(targets[0], 1, "callsite_func_ambiguous")
  }

  predicate OccursAt(text: string, word: string, i: nat) {
    i + |word| <= |text| && text[i..i + |word|] == word
  }

  /** `text.find(word) != npos`. */
  predicate Mentions(text: string, word: string) {
    exists i: nat :: i <= |text| && OccursAt(text, word, i)
  }

  predicate Settled(name: string) {
    name != "" && !Mentions(name, "ambiguous")
  }

  /** The function pass answers with the only pointer target of the functions on the stack, or the first of several
      that has the allocation's size. */
  lemma FunctionPassMeaning(b: Binary, size: u64, targets: seq<string>)
    requires targets != []
    ensures var r, sizes := FunctionPass(b, size, targets), SizeCandidates(b.types, size);
      && NarrowedBySize(b.types, size, targets, r.typeName) && r.allocCount == 1
      && if |targets| == 1 then r.typeName == targets[0] && r.how == "callsite_func"
         else
           && IsFirstChoice(sizes, targets, r.typeName)
           && r.how == if |Common(targets, sizes)| == 1 then "callsite_func+size" else "callsite_func_ambiguous"
  {
    CommonIsFirstChoice(targets, SizeCandidates(b.types, size));
    if |targets| > 1 {
      CommonChoice(b.types, size, targets);
    }
  }

  /** The marker may stand anywhere in a name. */
  lemma MentionsAnywhere(before: string, word: string, after: string)
    ensures Mentions(before + word + after, word)
  {
    assert OccursAt(before + word + after, word, |before|);
  }

  lemma MentionedIsPart(text: string, word: string) returns (before: string, after: string)
    requires Mentions(text, word)
    ensures text == before + word + after
  {
    var i: nat :| i <= |text| && OccursAt(text, word, i);
    before, after := text[..i], text[i + |word|..];
  }

  // ----- size and array fallbacks -----

  predicate ArrayFits(t: TypeInfo, size: u64) {
    t.fields != [] && t.byteSize >= 8 && size % t.byteSize == 0 && 2 <= size / t.byteSize <= 100000
  }

  const MARK: string := " (ambiguous)"

  /** The first type whose elements could fill the allocation as an array; a second one marks it ambiguous. */
  function ArrayFrom(types: seq<TypeInfo>, size: u64, found: Inference): Inference {
    if types == [] then found
    else if !ArrayFits(types[0], size) then ArrayFrom(types[1..], size, found)
    else if found.typeName == "" then
      ArrayFrom(types[1..], size, Inference(types[0].name, size / types[0].byteSize, "array_size_match"))
    else found.(typeName := found.typeName + MARK)
  }

  const NO_ARRAY: Inference := Inference("", 0, "")

  method TryArraySizeMatch(types: seq<TypeInfo>, size: u64) returns (r: Inference)
    ensures r == ArrayFrom(types, size, NO_ARRAY)
  {
    r := NO_ARRAY;
    var i := 0;
    while i < |types|
      invariant 0 <= i <= |types|
      invariant ArrayFrom(types, size, NO_ARRAY) == ArrayFrom(types[i..], size, r)
    {
      assert types[i..][1..] == types[i + 1..];
      var t := types[i];
      i := i + 1;
      if t.fields == [] { continue; }
      if t.byteSize < 8 { continue; }
      if size % t.byteSize != 0 { continue; }
      var count := size / t.byteSize;
      if count < 2 || count > 100000 { continue; }
      if r.typeName == "" {
        r := Inference(t.name, count, "array_size_match");
      } else {
        r := r.(typeName := r.typeName + MARK);
        return;
      }
    }
  }

  /** What the size alone says; `left` is what the earlier passes left behind. */
  function SizeFallback(b: Binary, size: u64, left: Inference): Inference {
    var candidates := SizeCandidates(b.types, size);
    if |candidates| == 1 then Inference(candidates[0], 1, "size_match")
    else if |candidates| > 1 then Inference(candidates[0], left.allocCount, "size_ambiguous")
    else
      var a := ArrayFrom(b.types, size, NO_ARRAY);
      if a.typeName != "" then a else left.(how := "unknown")
  }

  /** Type `i` is the first with fields that is exactly as large. */
  predicate IsFirstOfSize(types: seq<TypeInfo>, size: u64, i: nat) {
    && i < |types| && types[i].byteSize == size > 0 && types[i].fields != []
    && forall k :: 0 <= k < i ==> types[k].byteSize != size || types[k].fields == []
  }

  predicate IsOnlyOfSize(types: seq<TypeInfo>, size: u64, i: nat) {
    IsFirstOfSize(types, size, i) && forall k :: i < k < |types| ==> types[k].byteSize != size || types[k].fields == []
  }

  lemma {:induction false} FirstCandidate(types: seq<TypeInfo>, size: u64, i: nat)
    requires IsFirstOfSize(types, size, i)
    ensures SizeCandidates(types, size) != [] && SizeCandidates(types, size)[0] == types[i].name
    ensures |SizeCandidates(types, size)| == 1 <==> IsOnlyOfSize(types, size, i)
  {
    var n := |types| - 1;
    if i < n {
      FirstCandidate(types[..n], size, i);
    } else {
      CandidatesAreTypes(types[..n], size);
    }
  }

  /** The size fallback answers with the first type of exactly that size, as one element if it is the only one. */
  lemma SizeFallbackMeaning(b: Binary, size: u64, left: Inference, i: nat)
    requires IsFirstOfSize(b.types, size, i)
    ensures SizeFallback(b, size, left) ==
      if IsOnlyOfSize(b.types, size, i) then Inference(b.types[i].name, 1, "size_match")
      else Inference(b.types[i].name, left.allocCount, "size_ambiguous")
  {
    FirstCandidate(b.types, size, i);
  }

  /** If there is none it answers with the array match, or else with what the earlier passes left. */
  lemma SizeFallbackWithout(b: Binary, size: u64, left: Inference)
    requires forall t <- b.types :: t.byteSize != size || t.fields == [] || size == 0
    ensures var a := ArrayFrom(b.types, size, NO_ARRAY);
      SizeFallback(b, size, left) == if a.typeName != "" then a else left.(how := "unknown")
  {
    CandidatesAreTypes(b.types, size);
  }

  lemma {:induction false} CandidatesAreTypes(types: seq<TypeInfo>, size: u64)
    ensures forall name <- SizeCandidates(types, size) :: exists t <- types :: HasSize(t, size) && t.name == name
    ensures SizeCandidates(types, size) == [] <==> forall t <- types :: !HasSize(t, size)
  {
    if types != [] {
      var init, last := types[..|types| - 1], types[|types| - 1];
      CandidatesAreTypes(init, size);
      assert forall t :: t in types <==> t in init || t == last;
    }
  }

  /** Type `i` is the first that has a name and whose elements could fill the allocation. */
  predicate IsFirstFit(types: seq<TypeInfo>, size: u64, i: nat) {
    && i < |types| && ArrayFits(types[i], size) && types[i].name != ""
    && forall k :: 0 <= k < i && ArrayFits(types[k], size) ==> types[k].name == ""
  }

  /** A later type, named or not, fits as well. */
  predicate FitsLater(types: seq<TypeInfo>, size: u64, i: nat) {
    exists j :: i < j < |types| && ArrayFits(types[j], size)
  }

  /** A type fits when it has fields, takes at least 8 bytes, and 2 to 100000 of its elements make up the size. */
  lemma ArrayFitsIff(t: TypeInfo, size: u64)
    ensures ArrayFits(t, size) <==>
      t.fields != [] && t.byteSize >= 8 && exists n :: 2 <= n <= 100000 && IsProduct(size, n, t.byteSize)
  {
    if ArrayFits(t, size) {
      ExactQuotient(size, t.byteSize);
      assert IsProduct(size, size / t.byteSize, t.byteSize);
    }
    if n :| 2 <= n <= 100000 && IsProduct(size, n, t.byteSize) {
      QuotientIff(size, t.byteSize, n);
    }
  }

  predicate IsProduct(x: int, n: int, d: int) { x == n * d }

  /** The name reported for type `i`, marked if a later type fits. */
  function MatchName(types: seq<TypeInfo>, size: u64, i: nat): string
    requires i < |types|
  {
    types[i].name + if FitsLater(types, size, i) then MARK else ""
  }

  lemma {:induction false} ArrayAfterFirst(types: seq<TypeInfo>, size: u64, found: Inference)
    requires found.typeName != ""
    ensures ArrayFrom(types, size, found) ==
      if exists j :: 0 <= j < |types| && ArrayFits(types[j], size) then found.(typeName := found.typeName + MARK)
      else found
  {
    if types != [] {
      if ArrayFits(types[0], size) {
      } else {
        ArrayAfterFirst(types[1..], size, found);
        FitsInRest(types, size, 0);
      }
    }
  }

  lemma FitsInRest(types: seq<TypeInfo>, size: u64, i: nat)
    requires types != []
    ensures FitsLater(types, size, i) <==> exists j :: i <= j < |types[1..]| && ArrayFits(types[1..][j], size)
  {
    if FitsLater(types, size, i) {
      var j :| i < j < |types| && ArrayFits(types[j], size);
      assert types[1..][j - 1] == types[j];
    }
    if j :| i <= j < |types[1..]| && ArrayFits(types[1..][j], size) {
      assert types[j + 1] == types[1..][j];
    }
  }

  /** The array fallback reports the first named type that fits with the number of its elements, and marks it
      exactly when a later type fits too. */
  lemma {:induction false} ArrayMatchMeaning(types: seq<TypeInfo>, size: u64, found: Inference, i: nat)
    requires found.typeName == "" && IsFirstFit(types, size, i)
    ensures ArrayFrom(types, size, found) ==
      Inference(MatchName(types, size, i), size / types[i].byteSize, "array_size_match")
  {
    var rest := types[1..];
    FitsInRest(types, size, i);
    if i == 0 {
      ArrayAfterFirst(rest, size, Inference(types[0].name, size / types[0].byteSize, "array_size_match"));
    } else {
      assert forall k :: 0 <= k < |rest| ==> rest[k] == types[k + 1];
      assert FitsLater(rest, size, i - 1) <==> FitsLater(types, size, i) by { FitsInRest(types, size, i); }
      var next :=
        if ArrayFits(types[0], size) then Inference("", size / types[0].byteSize, "array_size_match") else found;
      ArrayMatchMeaning(rest, size, next, i - 1);
    }
  }

  /** It reports nothing exactly when no named type fits. */
  lemma {:induction false} NoArrayMatchIff(types: seq<TypeInfo>, size: u64, found: Inference)
    requires found.typeName == ""
    ensures ArrayFrom(types, size, found).typeName == "" <==> forall t <- types :: ArrayFits(t, size) ==> t.name == ""
  {
    if types != [] {
      var t, rest := types[0], types[1..];
      var next := if ArrayFits(t, size) then Inference(t.name, size / t.byteSize, "array_size_match") else found;
      assert forall u :: u in types <==> u == t || u in rest;
      if next.typeName == "" {
        NoArrayMatchIff(rest, size, next);
      } else {
        ArrayAfterFirst(rest, size, next);
      }
    }
  }

  lemma {:induction false} FirstFit(types: seq<TypeInfo>, size: u64, n: nat) returns (i: nat)
    requires n < |types| && ArrayFits(types[n], size) && types[n].name != ""
    ensures IsFirstFit(types, size, i)
    decreases n
  {
    i := n;
    if k :| 0 <= k < n && ArrayFits(types[k], size) && types[k].name != "" {
      i := FirstFit(types, size, k);
    }
  }

  // ----- the whole -----

  function Infer(b: Binary, size: u64, pcs: seq<u64>): Inference {
    if pcs == [] then SizeFallback(b, size, NOTHING)
    else match FirstVerdict(b, size, pcs, 1)
      case Some(v) => v
      case None =>
        var byFunction := FunctionPass(b, size, StackTargets(b, pcs));
        if Settled(byFunction.typeName) then byFunction.(allocCount := CountFor(b.types, byFunction.typeName, size))
        else SizeFallback(b, size, byFunction)
  }

  lemma {:induction false} FirstVerdictAt(b: Binary, size: u64, pcs: seq<u64>, i: nat, j: nat)
    requires i <= j < |pcs| && Informative(b, pcs[j])
    requires forall k :: i <= k < j ==> !Informative(b, pcs[k])
    ensures FirstVerdict(b, size, pcs, i) == FrameVerdict(b, size, pcs[j])
    decreases j - i
  {
    VerdictIffInformative(b, size, pcs[i]);
    if i < j {
      FirstVerdictAt(b, size, pcs, i + 1, j);
    }
  }

  lemma {:induction false} NoVerdict(b: Binary, size: u64, pcs: seq<u64>, i: nat)
    requires forall k :: i <= k < |pcs| ==> !Informative(b, pcs[k])
    ensures FirstVerdict(b, size, pcs, i) == None
    decreases |pcs| - i
  {
    if i < |pcs| {
      VerdictIffInformative(b, size, pcs[i]);
      NoVerdict(b, size, pcs, i + 1);
    }
  }

  /** The earliest informative frame past the innermost one decides: two stacks with the same frame there,
      and only uninformative ones before it, lead to the same answer whatever follows. */
  lemma FirstInformativeFrameDecides(b: Binary, size: u64, pcs: seq<u64>, pcs': seq<u64>, j: nat)
    requires 1 <= j < |pcs| && j < |pcs'| && pcs[j] == pcs'[j] && Informative(b, pcs[j])
    requires forall k :: 1 <= k < j ==> !Informative(b, pcs[k]) && !Informative(b, pcs'[k])
    ensures Infer(b, size, pcs) == Infer(b, size, pcs')
    ensures FrameVerdict(b, size, pcs[j]) == Some(Infer(b, size, pcs))
  {
    VerdictIffInformative(b, size, pcs[j]);
    FirstVerdictAt(b, size, pcs, 1, j);
    FirstVerdictAt(b, size, pcs', 1, j);
  }

  /** Without an informative frame the function pass decides when its candidate is not taken for ambiguous, else the
      size. */
  lemma InferWithoutFrames(b: Binary, size: u64, pcs: seq<u64>)
    requires forall k :: 1 <= k < |pcs| ==> !Informative(b, pcs[k])
    ensures Infer(b, size, pcs) ==
      if pcs == [] then SizeFallback(b, size, NOTHING)
      else
        var f := FunctionPass(b, size, StackTargets(b, pcs));
        if f.typeName != "" && !Mentions(f.typeName, "ambiguous") then
          Inference(f.typeName, CountFor(b.types, f.typeName, size), f.how)
        else SizeFallback(b, size, f)
  {
    NoVerdict(b, size, pcs, 1);
  }

  /** No frame past the innermost one is informative. */
  ghost predicate NoInformativeFrame(b: Binary, pcs: seq<u64>) {
    forall k :: 1 <= k < |pcs| ==> !Informative(b, pcs[k])
  }

  /** The candidate of the function pass, "" when no function on the stack has a pointer variable. */
  function FunctionCandidate(b: Binary, size: u64, pcs: seq<u64>): string {
    if pcs == [] then "" else FunctionPass(b, size, StackTargets(b, pcs)).typeName
  }

  /** When no frame is informative the size decides exactly if the function pass has no candidate, or one
      whose name contains "ambiguous", which the code takes for a marker of its own. */
  lemma FallbackIff(b: Binary, size: u64, pcs: seq<u64>)
    requires NoInformativeFrame(b, pcs)
    ensures (FunctionCandidate(b, size, pcs) == "" || Mentions(FunctionCandidate(b, size, pcs), "ambiguous")) <==>
      Infer(b, size, pcs).how in {"size_match", "size_ambiguous", "array_size_match", "unknown"}
    ensures FunctionCandidate(b, size, pcs) == "" <==> pcs == [] || StackTargets(b, pcs) == []
  {
    NoVerdict(b, size, pcs, 1);
    if pcs != [] {
      var targets := StackTargets(b, pcs);
      var common := Common(targets, SizeCandidates(b.types, size));
      assert targets != [] ==> targets[0] in targets;
      CommonMembers(targets, SizeCandidates(b.types, size));
      assert common != [] ==> common[0] in common;
      FunctionPassMethods(b, size, targets);
    }
    FallbackMethods(b, size, if pcs == [] then NOTHING else FunctionPass(b, size, StackTargets(b, pcs)));
  }

  /** The marker matters: one function on the stack with a pointer to a type that happens to be called
      `ambiguous_t` is a unique candidate, yet the code goes on to the size and reports "unknown". */
  lemma AmbiguousNameIsPassedOver(b: Binary)
    requires b.ranges == [] && b.types == []
    requires b.subprograms == [SubprogramInfo("f", "", 0x1000, 0x100, true, [LocalVariable("p", true, "ambiguous_t")])]
    requires b.symbols == [SymbolInfo("f", 0x1000, 0x100, "", FunctionSymbol)]
    ensures FunctionCandidate(b, 16, [0x1010]) == "ambiguous_t"
    ensures Infer(b, 16, [0x1010]) == Inference("ambiguous_t", 1, "unknown")
  {
    OnlyFunctionAt(b);
    OnlyTarget(b);
    var pcs: seq<u64> := [0x1010];
    assert pcs[..0] == [] && FunctionsOf(b, pcs) == ["f"];
    assert StackTargets(b, pcs) == ["ambiguous_t"];
    assert OccursAt("ambiguous_t", "ambiguous", 0);
  }

  lemma OnlyFunctionAt(b: Binary)
    requires b.ranges == [] && b.symbols == [SymbolInfo("f", 0x1000, 0x100, "", FunctionSymbol)]
    ensures FunctionAt(b, 0x1010) == Some("f")
  {
    assert b.symbols[..0] == [] && LastGreatestStart([], 0x1010) == -1;
    assert LastGreatestStart(b.symbols, 0x1010) == 0 && InExtent(b.symbols[0], 0x1010);
    assert forall i :: 0 <= i < |SKIPPED| ==> |SKIPPED[i]| != |"f"|;
  }

  lemma OnlyTarget(b: Binary)
    requires b.subprograms == [SubprogramInfo("f", "", 0x1000, 0x100, true, [LocalVariable("p", true, "ambiguous_t")])]
    ensures SortedDistinct(AllTargets(b.subprograms, ["f"])) == ["ambiguous_t"]
  {
    assert LastSubprogram(b.subprograms, "f") == 0;
    assert b.subprograms[0].locals[..0] == [];
    assert TargetsOf(b.subprograms, "f") == ["ambiguous_t"];
    assert ["f"][..0] == [] && AllTargets(b.subprograms, ["f"]) == ["ambiguous_t"];
    assert ["ambiguous_t"][1..] == [];
  }

  lemma FunctionPassMethods(b: Binary, size: u64, targets: seq<string>)
    ensures FunctionPass(b, size, targets).how in {"", "callsite_func", "callsite_func+size", "callsite_func_ambiguous"}
    ensures FunctionPass(b, size, targets).how == "" <==> targets == []
    ensures FunctionPass(b, size, targets).allocCount == 1
  {
  }

  lemma {:induction false} ArrayMethod(types: seq<TypeInfo>, size: u64, found: Inference)
    requires found.typeName == "" || found.how == "array_size_match"
    ensures ArrayFrom(types, size, found).typeName != "" ==> ArrayFrom(types, size, found).how == "array_size_match"
  {
    if types != [] {
      if !ArrayFits(types[0], size) {
        ArrayMethod(types[1..], size, found);
      } else if found.typeName == "" {
        ArrayMethod(types[1..], size, Inference(types[0].name, size / types[0].byteSize, "array_size_match"));
      }
    }
  }

  lemma FallbackMethods(b: Binary, size: u64, left: Inference)
    ensures SizeFallback(b, size, left).how in {"size_match", "size_ambiguous", "array_size_match", "unknown"}
  {
    ArrayMethod(b.types, size, NO_ARRAY);
  }

  // ----- element counts are sound -----

  /** The reported count fills the allocation with elements of the reported type. */
  ghost predicate CountFits(types: seq<TypeInfo>, size: u64, r: Inference) {
    var t := TypeNamed(types, r.typeName);
    r.allocCount > 1 && t.Some? ==> t.value.byteSize > 0 && r.allocCount * t.value.byteSize == size
  }

  lemma CountForFits(types: seq<TypeInfo>, name: string, size: u64, how: string)
    ensures CountFits(types, size, Inference(name, CountFor(types, name, size), how))
  {
  }

  lemma ExactQuotient(x: int, d: int)
    requires d > 0 && x % d == 0
    ensures x / d * d == x
  {
  }

  /** The name the array fallback reports leads back to a type of the size it counted with, or to none. */
  predicate NameLeadsBack(types: seq<TypeInfo>, size: u64, i: nat)
    requires i < |types|
  {
    var t := TypeNamed(types, MatchName(types, size, i));
    t.Some? ==> t.value.byteSize == types[i].byteSize
  }

  ghost predicate ArrayNameLeadsBack(types: seq<TypeInfo>, size: u64) {
    forall i: nat :: IsFirstFit(types, size, i) ==> NameLeadsBack(types, size, i)
  }

  lemma SameFactor(n: int, x: int, y: int)
    requires n > 0 && n * x == n * y
    ensures x == y
  {
  }

  lemma ArrayCountFitsAt(types: seq<TypeInfo>, size: u64, i: nat)
    requires IsFirstFit(types, size, i)
    ensures CountFits(types, size, ArrayFrom(types, size, NO_ARRAY)) <==> NameLeadsBack(types, size, i)
  {
    ArrayMatchMeaning(types, size, NO_ARRAY, i);
    ExactQuotient(size, types[i].byteSize);
    var r := ArrayFrom(types, size, NO_ARRAY);
    var t := TypeNamed(types, r.typeName);
    if t.Some? && r.allocCount * t.value.byteSize == size {
      SameFactor(r.allocCount, t.value.byteSize, types[i].byteSize);
    }
  }

  /** The count of an array match fills the allocation exactly when the reported name leads back. */
  lemma ArrayCountFitsIff(types: seq<TypeInfo>, size: u64)
    requires ArrayFrom(types, size, NO_ARRAY).typeName != ""
    ensures CountFits(types, size, ArrayFrom(types, size, NO_ARRAY)) <==> ArrayNameLeadsBack(types, size)
  {
    NoArrayMatchIff(types, size, NO_ARRAY);
    var n: nat :| n < |types| && ArrayFits(types[n], size) && types[n].name != "";
    var i := FirstFit(types, size, n);
    ArrayCountFitsAt(types, size, i);
    assert forall k: nat :: IsFirstFit(types, size, k) ==> k == i;
  }

  /** A condition on the table alone that suffices: types of one name have one size, and no type is named as the
      code marks another. */
  lemma DistinctNamesLeadBack(types: seq<TypeInfo>, size: u64)
    requires forall t <- types, u <- types :: t.name == u.name ==> t.byteSize == u.byteSize
    requires forall t <- types, u <- types :: u.name != t.name + MARK
    ensures ArrayNameLeadsBack(types, size)
  {
    forall i: nat | IsFirstFit(types, size, i) ensures NameLeadsBack(types, size, i) {
      assert types[i] in types;
      assert types[i].name + "" == types[i].name;
    }
  }

  lemma {:induction false} VerdictCountFits(b: Binary, size: u64, pcs: seq<u64>, i: nat)
    requires FirstVerdict(b, size, pcs, i).Some?
    ensures CountFits(b.types, size, FirstVerdict(b, size, pcs, i).value)
    decreases |pcs| - i
  {
    var v := FrameVerdict(b, size, pcs[i]);
    if v.Some? {
      CountForFits(b.types, v.value.typeName, size, v.value.how);
    } else {
      VerdictCountFits(b, size, pcs, i + 1);
    }
  }

  /** The name need not lead back: of two types of one name, 16 and 24 bytes, the first fits into 64 bytes four
      times, but its name finds the second. */
  lemma DuplicateNameMiscounts(first: TypeInfo, second: TypeInfo)
    requires first.name == second.name != "" && first.fields != []
    requires first.byteSize == 16 && second.byteSize == 24
    ensures ArrayFrom([first, second], 64, NO_ARRAY) == Inference(first.name, 4, "array_size_match")
    ensures !CountFits([first, second], 64, Inference(first.name, 4, "array_size_match"))
  {
    var types := [first, second];
    assert IsFirstFit(types, 64, 0) && !FitsLater(types, 64, 0);
    ArrayMatchMeaning(types, 64, NO_ARRAY, 0);
    assert first.name + "" == first.name;
    assert TypeNames(types)[1] == first.name;
    assert TypeNamed(types, first.name) == Some(second);
  }

  /** No frame and no function on the stack settles the type, no type has the size: the array fallback answers. */
  predicate AnswersByArray(b: Binary, size: u64, pcs: seq<u64>) {
    && (pcs != [] ==> FirstVerdict(b, size, pcs, 1) == None && !Settled(FunctionCandidate(b, size, pcs)))
    && SizeCandidates(b.types, size) == [] && ArrayFrom(b.types, size, NO_ARRAY).typeName != ""
  }

  lemma AnswerByArray(b: Binary, size: u64, pcs: seq<u64>)
    requires AnswersByArray(b, size, pcs)
    ensures Infer(b, size, pcs) == ArrayFrom(b.types, size, NO_ARRAY)
  {
  }

  lemma OtherCountsFit(b: Binary, size: u64, pcs: seq<u64>)
    requires !AnswersByArray(b, size, pcs)
    ensures CountFits(b.types, size, Infer(b, size, pcs))
  {
    if pcs != [] {
      if FirstVerdict(b, size, pcs, 1).Some? {
        VerdictCountFits(b, size, pcs, 1);
      } else {
        var f := FunctionPass(b, size, StackTargets(b, pcs));
        CountForFits(b.types, f.typeName, size, f.how);
        FunctionPassMethods(b, size, StackTargets(b, pcs));
      }
    }
  }

  /** Whenever inference reports several elements of a type that exists, they fill the allocation exactly, unless
      the array fallback answers with a name that leads to a type of another size. */
  lemma InferredCountFitsIff(b: Binary, size: u64, pcs: seq<u64>)
    ensures CountFits(b.types, size, Infer(b, size, pcs)) <==>
      (AnswersByArray(b, size, pcs) ==> ArrayNameLeadsBack(b.types, size))
  {
    if AnswersByArray(b, size, pcs) {
      AnswerByArray(b, size, pcs);
      ArrayCountFitsIff(b.types, size);
    } else {
      OtherCountsFit(b, size, pcs);
    }
  }
}
