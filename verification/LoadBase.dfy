/** Recovering where a position-independent binary was loaded: voting for a load base, and mapping run-time
    addresses back into the binary's own address ranges. */
module LoadBase {
  import opened Words
  import opened Dwarf

  const WINDOW_LOW: int := 0x100_0000
  const WINDOW_HIGH: int := 0x1_0000_0000_0000
  const LIBRARIES: int := 0x7f00_0000_0000
  const LOW_GUARD: int := 0x10_0000

  // ----- ballots -----

  /** `w` has the most votes, and is the smallest of those that do. */
  predicate IsWinner(votes: multiset<int>, w: int) {
    w in votes && forall k <- votes :: votes[k] < votes[w] || (votes[k] == votes[w] && w <= k)
  }

  /** The winner of a ballot, 0 when nobody voted. */
  function Winner(votes: seq<int>): int {
    if votes == [] then 0
    else
      var init, v := votes[..|votes| - 1], votes[|votes| - 1];
      var w, ms := Winner(init), multiset(votes);
      if init == [] || ms[v] > ms[w] || (ms[v] == ms[w] && v < w) then v else w
  }

  lemma {:induction false} WinnerWins(votes: seq<int>)
    requires votes != []
    ensures IsWinner(multiset(votes), Winner(votes))
  {
    var init, v := votes[..|votes| - 1], votes[|votes| - 1];
    assert votes == init + [v];
    var before, after := multiset(init), multiset(votes);
    assert after == before + multiset{v};
    if init == [] {
      assert after == multiset{v};
    } else {
      WinnerWins(init);
      var w, w' := Winner(init), Winner(votes);
      forall k | k in after ensures after[k] < after[w'] || (after[k] == after[w'] && w' <= k) {
        if k != v { assert k in before && after[k] == before[k]; }
      }
    }
  }

  /** Of two bases with equally many votes, and more than any other, the smaller one wins. */
  lemma TieGoesToSmaller(votes: seq<int>, v: int, w: int)
    requires v in votes && w in votes && v < w && multiset(votes)[v] == multiset(votes)[w]
    requires forall k <- votes :: k != v && k != w ==> multiset(votes)[k] < multiset(votes)[v]
    ensures Winner(votes) == v
  {
    WinnerWins(votes);
    assert Winner(votes) in votes && v in multiset(votes) && w in multiset(votes);
  }

  lemma WinnerUnique(votes: multiset<int>, w: int, w': int)
    requires IsWinner(votes, w) && IsWinner(votes, w')
    ensures w == w'
  {
  }

  /** `counts` is the `std::map` of the votes. */
  ghost predicate IsTally(counts: map<int, nat>, votes: seq<int>) {
    && counts.Keys == (set v <- votes)
    && forall k <- counts.Keys :: counts[k] == multiset(votes)[k]
  }

  method AddVote(counts: map<int, nat>, v: int, ghost votes: seq<int>) returns (counts': map<int, nat>)
    requires IsTally(counts, votes)
    ensures IsTally(counts', votes + [v])
  {
    counts' := counts[v := (if v in counts then counts[v] else 0) + 1];
    assert forall k :: k in votes + [v] <==> k in votes || k == v;
    assert v !in votes ==> multiset(votes)[v] == 0;
  }

  lemma HasLeast(s: set<int>) returns (least: int)
    requires s != {}
    ensures least in s && forall j <- s :: least <= j
  {
    assert (forall x :: x !in s) ==> s == {};
    var x :| x in s;
    var others := s - {x};
    assert forall j <- s :: j == x || j in others;
    if others == {} {
      return x;
    }
    var k := HasLeast(others);
    return if x < k then x else k;
  }

  /** The keys in the order in which a `std::map` iterates. */
  method KeysInOrder(s: set<int>) returns (keys: seq<int>)
    ensures forall i :: 0 < i < |keys| ==> keys[i - 1] < keys[i]
    ensures forall x :: x in keys <==> x in s
  {
    keys := [];
    var rest := s;
    while rest != {}
      invariant forall i :: 0 < i < |keys| ==> keys[i - 1] < keys[i]
      invariant forall x :: x in s <==> x in keys || x in rest
      invariant keys != [] ==> forall x <- rest :: keys[|keys| - 1] < x
      decreases |rest|
    {
      ghost var least := HasLeast(rest);
      var k :| k in rest && forall j <- rest :: k <= j;
      assert forall x :: x in keys + [k] <==> x in keys || x == k;
      keys, rest := keys + [k], rest - {k};
    }
  }

  lemma {:induction false} AscendingBelowLast(keys: seq<int>, n: nat)
    requires n < |keys| && forall i :: 0 < i < |keys| ==> keys[i - 1] < keys[i]
    ensures forall i :: 0 <= i < n ==> keys[i] < keys[n]
  {
    if n > 0 {
      AscendingBelowLast(keys, n - 1);
    }
  }

  /** Walks the map in ascending order, keeping the first key with the highest count. */
  method BestOffset(counts: map<int, nat>, ghost votes: seq<int>) returns (best: int)
    requires IsTally(counts, votes) && votes != []
    ensures best == Winner(votes)
  {
    var keys := KeysInOrder(counts.Keys);
    forall j | 0 <= j < |keys| ensures keys[j] in counts.Keys { assert keys[j] in keys; }
    best := 0;
    var bestCount := 0;
    var i := 0;
    while i < |keys|
      invariant 0 <= i <= |keys|
      invariant if i == 0 then bestCount == 0 else best in keys[..i] && bestCount == counts[best]
      invariant forall j :: 0 <= j < i ==>
        counts[keys[j]] < bestCount || (counts[keys[j]] == bestCount && best <= keys[j])
    {
      AscendingBelowLast(keys, i);
      assert keys[i] in votes;
      if counts[keys[i]] > bestCount {
        best, bestCount := keys[i], counts[keys[i]];
      }
      assert keys[..i + 1] == keys[..i] + [keys[i]];
      i := i + 1;
    }
    var first := votes[0];
    assert first in votes;
    assert first in counts.Keys;
    assert first in keys;
    TallyWinner(counts, votes, best);
  }

  lemma TallyEmptyIff(counts: map<int, nat>, votes: seq<int>)
    requires IsTally(counts, votes)
    ensures |counts| == 0 <==> votes == []
  {
    assert |counts| == |counts.Keys|;
    if votes == [] {
      assert counts.Keys == {};
    } else {
      assert votes[0] in votes && votes[0] in counts.Keys;
    }
  }

  lemma TallyWinner(counts: map<int, nat>, votes: seq<int>, best: int)
    requires IsTally(counts, votes) && votes != [] && best in counts.Keys
    requires forall k <- counts.Keys :: counts[k] < counts[best] || (counts[k] == counts[best] && best <= k)
    ensures best == Winner(votes)
  {
    assert forall k <- multiset(votes) :: k in votes && k in counts.Keys;
    WinnerWins(votes);
    WinnerUnique(multiset(votes), best, Winner(votes));
  }

  // ----- voting by return addresses -----

  predicate InWindow(d: int) { WINDOW_LOW <= d <= WINDOW_HIGH }

  /** The vote of one return address for one subprogram's start, if the pair qualifies. */
  function Vote(pc: u64, sp: SubprogramInfo): (v: Option<int>)
    ensures v.Some? ==> v.value % PAGE == 0 && InWindow(v.value)
  {
    if pc == 0 || pc >= LIBRARIES || sp.lowPc == 0 || sp.name == "" || EndPc(sp) <= sp.lowPc then None
    else
      var potential := Diff64(pc, sp.lowPc);
      if InWindow(potential) then Some(potential / PAGE * PAGE) else None
  }

  /** The subprogram has code: `highPc` counts from `lowPc` or is the end. */
  predicate HasCode(sp: SubprogramInfo) {
    if sp.highPcIsOffset then 0 < sp.highPc && sp.lowPc + sp.highPc < TWO64 else sp.lowPc < sp.highPc
  }

  /** `v` is the distance `d` rounded down to a page, and the distance is one at which binaries are loaded. */
  predicate IsRounded(d: int, v: int) {
    0x100_0000 <= d <= 0x1_0000_0000_0000 && v % 0x1000 == 0 && v <= d < v + 0x1000
  }

  /** A pair votes for `v` exactly when the address is not zero and below the libraries, the subprogram is named and
      has code, and the address lies the distance `v`, but for less than a page, above the subprogram's start;
      above, that is, when addresses wrap around. */
  lemma VoteIff(pc: u64, sp: SubprogramInfo, v: int)
    ensures Vote(pc, sp) == Some(v) <==>
      && 0 < pc < 0x7f00_0000_0000 && sp.lowPc != 0 && sp.name != "" && HasCode(sp)
      && (IsRounded(pc - sp.lowPc, v) || IsRounded(pc - sp.lowPc + TWO64, v))
  {
  }

  /** The votes of one address, in subprogram order. */
  function VotesOf(pc: u64, subprograms: seq<SubprogramInfo>): seq<int> {
    if subprograms == [] then []
    else
      var init := VotesOf(pc, subprograms[..|subprograms| - 1]);
      match Vote(pc, subprograms[|subprograms| - 1])
      case Some(v) => init + [v]
      case None => init
  }

  function Votes(pcs: seq<u64>, subprograms: seq<SubprogramInfo>): seq<int> {
    if pcs == [] then [] else Votes(pcs[..|pcs| - 1], subprograms) + VotesOf(pcs[|pcs| - 1], subprograms)
  }

  /** The two nested loops of `compute_aslr_offset`. */
  method TallyVotes(pcs: seq<u64>, subprograms: seq<SubprogramInfo>) returns (counts: map<int, nat>)
    ensures IsTally(counts, Votes(pcs, subprograms))
  {
    counts := map[];
    var i := 0;
    while i < |pcs|
      invariant 0 <= i <= |pcs|
      invariant IsTally(counts, Votes(pcs[..i], subprograms))
    {
      assert pcs[..i + 1][..i] == pcs[..i];
      ghost var before := Votes(pcs[..i], subprograms);
      assert before + VotesOf(pcs[i], subprograms[..0]) == before;
      var j := 0;
      while j < |subprograms|
        invariant 0 <= j <= |subprograms|
        invariant IsTally(counts, before + VotesOf(pcs[i], subprograms[..j]))
      {
        assert subprograms[..j + 1][..j] == subprograms[..j];
        var vote := Vote(pcs[i], subprograms[j]);
        if vote.Some? {
          ghost var cast := VotesOf(pcs[i], subprograms[..j]);
          counts := AddVote(counts, vote.value, before + cast);
          assert before + cast + [vote.value] == before + (cast + [vote.value]);
        }
        j := j + 1;
      }
      assert subprograms[..j] == subprograms;
      i := i + 1;
    }
    assert pcs[..i] == pcs;
  }

  /** Every vote, hence any winner, is a multiple of the page size inside the window. */
  lemma {:induction false} VotesOfShape(pc: u64, subprograms: seq<SubprogramInfo>)
    ensures forall v <- VotesOf(pc, subprograms) :: v % PAGE == 0 && InWindow(v)
  {
    if subprograms != [] {
      VotesOfShape(pc, subprograms[..|subprograms| - 1]);
    }
  }

  lemma {:induction false} VotesShape(pcs: seq<u64>, subprograms: seq<SubprogramInfo>)
    ensures forall v <- Votes(pcs, subprograms) :: v % PAGE == 0 && InWindow(v)
  {
    if pcs != [] {
      VotesShape(pcs[..|pcs| - 1], subprograms);
      VotesOfShape(pcs[|pcs| - 1], subprograms);
    }
  }

  /** The base the vote settles on: a page multiple in the window with the most votes, or 0 without votes. */
  lemma AslrOffsetShape(pcs: seq<u64>, subprograms: seq<SubprogramInfo>)
    ensures var votes, base := Votes(pcs, subprograms), Winner(Votes(pcs, subprograms));
      if votes == [] then base == 0 else base % PAGE == 0 && InWindow(base) && IsWinner(multiset(votes), base)
  {
    var votes := Votes(pcs, subprograms);
    VotesShape(pcs, subprograms);
    if votes != [] {
      WinnerWins(votes);
      assert Winner(votes) in votes;
    }
  }

  /** The qualifying pairs, as a set of index pairs. */
  ghost function QualifyingPairs(pcs: seq<u64>, subprograms: seq<SubprogramInfo>): set<(nat, nat)> {
    set i: nat, j: nat | i < |pcs| && j < |subprograms| && Vote(pcs[i], subprograms[j]).Some? :: (i, j)
  }

  ghost function QualifyingFor(i: nat, pc: u64, subprograms: seq<SubprogramInfo>): set<(nat, nat)> {
    set j: nat | j < |subprograms| && Vote(pc, subprograms[j]).Some? :: (i, j)
  }

  lemma {:induction false} VotesOfCount(i: nat, pc: u64, subprograms: seq<SubprogramInfo>)
    ensures |VotesOf(pc, subprograms)| == |QualifyingFor(i, pc, subprograms)|
  {
    if subprograms != [] {
      var n := |subprograms| - 1;
      var init := subprograms[..n];
      VotesOfCount(i, pc, init);
      QualifyingOneMore(i, pc, subprograms);
    }
  }

  lemma QualifyingOneMore(i: nat, pc: u64, subprograms: seq<SubprogramInfo>)
    requires subprograms != []
    ensures var n := |subprograms| - 1;
      |QualifyingFor(i, pc, subprograms)| == |QualifyingFor(i, pc, subprograms[..n])| +
        if Vote(pc, subprograms[n]).Some? then 1 else 0
  {
    var n := |subprograms| - 1;
    var before := QualifyingFor(i, pc, subprograms[..n]);
    assert (i, n) !in before;
    if Vote(pc, subprograms[n]).Some? {
      assert QualifyingFor(i, pc, subprograms) == before + {(i, n)};
    } else {
      assert QualifyingFor(i, pc, subprograms) == before;
    }
  }

  lemma PairsSplit(pcs: seq<u64>, subprograms: seq<SubprogramInfo>)
    requires pcs != []
    ensures var n := |pcs| - 1;
      var before, last := QualifyingPairs(pcs[..n], subprograms), QualifyingFor(n, pcs[n], subprograms);
      QualifyingPairs(pcs, subprograms) == before + last && before !! last
  {
  }

  /** As many votes are cast as there are qualifying (address, subprogram) pairs. */
  lemma {:induction false} VotesCount(pcs: seq<u64>, subprograms: seq<SubprogramInfo>)
    ensures |Votes(pcs, subprograms)| == |QualifyingPairs(pcs, subprograms)|
  {
    if pcs == [] {
      assert QualifyingPairs(pcs, subprograms) == {};
    } else {
      var n := |pcs| - 1;
      VotesCount(pcs[..n], subprograms);
      VotesOfCount(n, pcs[n], subprograms);
      PairsSplit(pcs, subprograms);
    }
  }

  /** A return address less than a page past the relocated start of a qualifying function. */
  ghost predicate NearStart(pc: u64, subprograms: seq<SubprogramInfo>, base: int) {
    exists sp <- subprograms :: Vote(pc, sp).Some? && sp.lowPc + base <= pc < sp.lowPc + base + PAGE
  }

  ghost function NearStarts(pcs: seq<u64>, subprograms: seq<SubprogramInfo>, base: int): nat {
    if pcs == [] then 0
    else NearStarts(pcs[..|pcs| - 1], subprograms, base) + if NearStart(pcs[|pcs| - 1], subprograms, base) then 1 else 0
  }

  lemma NearVote(pc: u64, sp: SubprogramInfo, base: int)
    requires base % PAGE == 0 && InWindow(base)
    requires Vote(pc, sp).Some? && sp.lowPc + base <= pc < sp.lowPc + base + PAGE
    ensures Vote(pc, sp) == Some(base)
  {
  }

  lemma {:induction false} NearStartVotes(pc: u64, subprograms: seq<SubprogramInfo>, base: int)
    requires base % PAGE == 0 && InWindow(base) && NearStart(pc, subprograms, base)
    ensures base in VotesOf(pc, subprograms)
  {
    var n := |subprograms| - 1;
    if Vote(pc, subprograms[n]).Some? && subprograms[n].lowPc + base <= pc < subprograms[n].lowPc + base + PAGE {
      NearVote(pc, subprograms[n], base);
    } else {
      NearStartVotes(pc, subprograms[..n], base);
    }
  }

  /** A true page-aligned base inside the window gets a vote from every address near its function's start. */
  lemma {:induction false} TrueBaseVotes(pcs: seq<u64>, subprograms: seq<SubprogramInfo>, base: int)
    requires base % PAGE == 0 && InWindow(base)
    ensures multiset(Votes(pcs, subprograms))[base] >= NearStarts(pcs, subprograms, base)
  {
    if pcs != [] {
      TrueBaseVotes(pcs[..|pcs| - 1], subprograms, base);
      if NearStart(pcs[|pcs| - 1], subprograms, base) {
        NearStartVotes(pcs[|pcs| - 1], subprograms, base);
      }
    }
  }

  // ----- voting by a global's address -----

  /** The address on the symbol's first page with the same page offset as `addr`. */
  function SamePageOffset(addr: u64, sym: SymbolInfo): u64 {
    PageSplit(sym.address, addr);
    sym.address / PAGE * PAGE + addr % PAGE
  }

  lemma PageSplit(x: u64, y: u64)
    ensures var c := x / PAGE * PAGE + y % PAGE; 0 <= c < TWO64 && c % PAGE == y % PAGE && c / PAGE == x / PAGE
  {
  }

  function GlobalVote(addr: u64, sym: SymbolInfo): Option<int> {
    var c := SamePageOffset(addr, sym);
    if sym.address == 0 || sym.kind != ObjectSymbol then None
    else if c < sym.address || (sym.size > 0 && c >= Wrap64(sym.address + sym.size)) then None
    else if InWindow(Diff64(addr, c)) then Some(Diff64(addr, c) / PAGE * PAGE)
    else None
  }

  function GlobalVotes(addr: u64, symbols: seq<SymbolInfo>): seq<int> {
    if symbols == [] then []
    else
      var init := GlobalVotes(addr, symbols[..|symbols| - 1]);
      match GlobalVote(addr, symbols[|symbols| - 1])
      case Some(v) => init + [v]
      case None => init
  }

  /** Rounding down to a page changes nothing: both addresses have the same page offset. */
  lemma GlobalVoteIsExact(addr: u64, sym: SymbolInfo)
    requires GlobalVote(addr, sym).Some?
    ensures var v := GlobalVote(addr, sym).value;
      v == Diff64(addr, SamePageOffset(addr, sym)) && v % PAGE == 0 && InWindow(v)
  {
  }

  /** A symbol votes for `v` exactly when it is an object that has a byte with the address's page offset on its first
      page, and that byte lies `v` below the address, at a distance at which binaries are loaded. */
  lemma GlobalVoteIff(addr: u64, sym: SymbolInfo, v: int)
    ensures GlobalVote(addr, sym) == Some(v) <==>
      var c := sym.address - sym.address % 0x1000 + addr % 0x1000;
      && sym.address != 0 && sym.kind == ObjectSymbol
      && sym.address <= c && (sym.size == 0 || c < sym.address + sym.size < TWO64)
      && v in {addr - c, addr - c + TWO64} && 0x100_0000 <= v <= 0x1_0000_0000_0000
  {
    var c := SamePageOffset(addr, sym);
    assert c == sym.address - sym.address % 0x1000 + addr % 0x1000;
    if GlobalVote(addr, sym).Some? { GlobalVoteIsExact(addr, sym); }
    RoundedAlready(addr, c, v);
  }

  /** Two addresses with one page offset are whole pages apart. */
  lemma RoundedAlready(x: u64, y: u64, d: int)
    requires x % PAGE == y % PAGE
    ensures Diff64(x, y) / PAGE * PAGE == Diff64(x, y)
    ensures WINDOW_LOW <= d <= WINDOW_HIGH ==> (Diff64(x, y) == d <==> d in {x - y, x - y + TWO64})
  {
  }

  lemma {:induction false} GlobalVotesShape(addr: u64, symbols: seq<SymbolInfo>)
    ensures forall v <- GlobalVotes(addr, symbols) :: v % PAGE == 0 && InWindow(v)
  {
    if symbols != [] {
      GlobalVotesShape(addr, symbols[..|symbols| - 1]);
      if GlobalVote(addr, symbols[|symbols| - 1]).Some? {
        GlobalVoteIsExact(addr, symbols[|symbols| - 1]);
      }
    }
  }

  lemma GlobalBaseShape(addr: u64, symbols: seq<SymbolInfo>)
    ensures var votes, base := GlobalVotes(addr, symbols), Winner(GlobalVotes(addr, symbols));
      if votes == [] then base == 0 else base % PAGE == 0 && InWindow(base) && IsWinner(multiset(votes), base)
  {
    var votes := GlobalVotes(addr, symbols);
    GlobalVotesShape(addr, symbols);
    if votes != [] {
      WinnerWins(votes);
      assert Winner(votes) in votes;
    }
  }

  /** `sym` is an object that starts on the page of `c`, at or below it, and does not end before it. */
  predicate HoldsOnFirstPage(sym: SymbolInfo, c: u64) {
    && sym.address != 0 && sym.kind == ObjectSymbol
    && sym.address <= c && sym.address / PAGE == c / PAGE && (sym.size > 0 ==> c < Wrap64(sym.address + sym.size))
  }

  /** A symbol votes for the true base exactly when it is an object whose first page holds the file address. */
  lemma VoteForTrueBase(c: u64, base: int, sym: SymbolInfo)
    requires base % PAGE == 0 && InWindow(base) && c + base < TWO64
    ensures GlobalVote(c + base, sym) == Some(base) <==> HoldsOnFirstPage(sym, c)
  {
    var s := SamePageOffset(c + base, sym);
    assert (c + base) % PAGE == c % PAGE;
    assert s == c <==> sym.address / PAGE == c / PAGE;
    assert Diff64(c + base, s) == base <==> s == c;
    if GlobalVote(c + base, sym).Some? { GlobalVoteIsExact(c + base, sym); }
  }

  /** The true base gets a vote exactly when some object starts on the page of the file address. */
  lemma {:induction false} TrueBaseVotedIff(c: u64, base: int, symbols: seq<SymbolInfo>)
    requires base % PAGE == 0 && InWindow(base) && c + base < TWO64
    ensures base in GlobalVotes(c + base, symbols) <==> exists sym <- symbols :: HoldsOnFirstPage(sym, c)
  {
    if symbols != [] {
      var init, last := symbols[..|symbols| - 1], symbols[|symbols| - 1];
      TrueBaseVotedIff(c, base, init);
      VoteForTrueBase(c, base, last);
      assert symbols == init + [last];
    }
  }

  /** When the last symbol start at or below `c` is on an earlier page, nobody votes for the true base. */
  lemma LaterPageGetsNoVote(c: u64, base: int, symbols: seq<SymbolInfo>)
    requires 0 <= c + base < TWO64
    requires var p := LastGreatestStart(symbols, c); p >= 0 ==> symbols[p].address / PAGE != c / PAGE
    ensures base !in GlobalVotes(c + base, symbols)
  {
    GlobalVotesShape(c + base, symbols);
    if base % PAGE == 0 && InWindow(base) {
      TrueBaseVotedIff(c, base, symbols);
      GreatestStartFacts(symbols, c);
    }
  }

  /** Every vote is somebody's. */
  lemma {:induction false} VoterOf(addr: u64, symbols: seq<SymbolInfo>, v: int) returns (i: nat)
    requires v in GlobalVotes(addr, symbols)
    ensures i < |symbols| && GlobalVote(addr, symbols[i]) == Some(v)
  {
    var n := |symbols| - 1;
    i := n;
    if GlobalVote(addr, symbols[n]) != Some(v) {
      i := VoterOf(addr, symbols[..n], v);
    }
  }

  lemma {:induction false} VoteIsCast(addr: u64, symbols: seq<SymbolInfo>, i: nat)
    requires i < |symbols| && GlobalVote(addr, symbols[i]).Some?
    ensures GlobalVote(addr, symbols[i]).value in GlobalVotes(addr, symbols)
  {
    if i < |symbols| - 1 {
      VoteIsCast(addr, symbols[..|symbols| - 1], i);
    }
  }

  /** The base an object votes for leads back to the address on its first page. */
  lemma VoteLeadsBack(addr: u64, sym: SymbolInfo)
    requires GlobalVote(addr, sym).Some?
    ensures Wrap64(addr - GlobalVote(addr, sym).value) == SamePageOffset(addr, sym)
    ensures 0 < GlobalVote(addr, sym).value < TWO63
  {
    GlobalVoteIsExact(addr, sym);
    DifferenceBack(addr, SamePageOffset(addr, sym));
  }

  lemma DifferenceBack(x: u64, y: u64)
    ensures Wrap64(x - Diff64(x, y)) == y
  {
  }

  /** The loop of `compute_aslr_from_global_addr`. */
  method ComputeAslrFromGlobalAddr(addr: u64, symbols: seq<SymbolInfo>) returns (base: int)
    ensures base == Winner(GlobalVotes(addr, symbols))
  {
    var counts: map<int, nat> := map[];
    var i := 0;
    while i < |symbols|
      invariant 0 <= i <= |symbols|
      invariant IsTally(counts, GlobalVotes(addr, symbols[..i]))
    {
      assert symbols[..i + 1][..i] == symbols[..i];
      var vote := GlobalVote(addr, symbols[i]);
      if vote.Some? {
        counts := AddVote(counts, vote.value, GlobalVotes(addr, symbols[..i]));
      }
      i := i + 1;
    }
    assert symbols[..i] == symbols;
    ghost var votes := GlobalVotes(addr, symbols);
    TallyEmptyIff(counts, votes);
    if |counts| == 0 {
      return 0;
    }
    base := BestOffset(counts, votes);
  }

  // ----- the binary's own address ranges -----

  datatype Range = Range(start: u64, end: u64)

  predicate InOpenWindow(d: int) { WINDOW_LOW <= d < WINDOW_HIGH }

  predicate BetweenGuards(va: u64) { LOW_GUARD <= va < LIBRARIES }

  /** The page loop below gets to the page of `x`: for a range that ends on the last page of the address space
      its upper end wraps to 0. */
  predicate IsReached(end: u64, x: u64) {
    end <= TWO64 - PAGE || x < PAGE
  }

  /** `x` is an address of the range, on a page the loop reaches, that `va` could be after loading at a
      page-aligned base in the window. */
  ghost predicate Explains(r: Range, va: u64, x: u64) {
    r.start <= x < r.end && IsReached(r.end, x) && x % PAGE == va % PAGE && InOpenWindow(Diff64(va, x))
  }

  /** What it means for `x` to explain `va`, written out. */
  lemma ExplainsIff(r: Range, va: u64, x: u64)
    ensures Explains(r, va, x) <==>
      && r.start <= x < r.end && (r.end <= 0xffff_ffff_ffff_f000 || x < 0x1000) && x % 0x1000 == va % 0x1000
      && (IsLoadDistance(va - x) || IsLoadDistance(va - x + TWO64))
  {
  }

  predicate IsLoadDistance(d: int) { 0x100_0000 <= d < 0x1_0000_0000_0000 }

  /** The first address of the range with the page offset of `va`. */
  function FirstWithOffset(r: Range, va: u64): (x: int)
    ensures r.start <= x < r.start + PAGE && x % PAGE == va % PAGE
  {
    var n := (va - r.start) / PAGE;
    assert va - r.start == n * PAGE + (va - r.start) % PAGE;
    assert r.start + (va - r.start) % PAGE == va - n * PAGE;
    DivUnique(va - n * PAGE, PAGE, va / PAGE - n, va % PAGE);
    r.start + (va - r.start) % PAGE
  }

  /** The wrapping difference, without the wrap. */
  lemma DiffCases(va: u64, x: u64)
    requires va < LIBRARIES
    ensures Diff64(va, x) == if x <= va + TWO63 then va - x else va - x + TWO64
  {
  }

  /** Where the signed difference wraps: an address more than this above `va` looks as if it lay below it. */
  const ALIAS: int := TWO64 - WINDOW_HIGH

  /** Two addresses come into question: the first one with the page offset of `va`, and the first one that the
      wrapping difference makes look low enough. If only page 0 is reached there is but one address. */
  function MatchIn(r: Range, va: u64): Option<u64> {
    if r.end > TWO64 - PAGE then
      if r.start <= va % PAGE && InOpenWindow(Diff64(va, va % PAGE)) then Some(va % PAGE) else None
    else
      var x, high := FirstWithOffset(r, va), ALIAS + va + PAGE;
      if x < r.end && InOpenWindow(Diff64(va, x)) then Some(x)
      else if r.start <= high < r.end then Some(high)
      else None
  }

  /** Addresses with the same page offset are at least a page apart. */
  lemma SameOffsetStep(x: int, y: int)
    requires x % PAGE == y % PAGE && x > y
    ensures x >= y + PAGE
  {
  }

  lemma AliasOffset(va: int)
    ensures (ALIAS + va + PAGE) % PAGE == va % PAGE
  {
  }

  lemma MatchExplains(r: Range, va: u64)
    requires BetweenGuards(va)
    ensures MatchIn(r, va).Some? ==> Explains(r, va, MatchIn(r, va).value)
  {
    AliasOffset(va);
    if MatchIn(r, va).Some? {
      DiffCases(va, MatchIn(r, va).value);
    }
  }

  lemma MatchAtMost(r: Range, va: u64, x: u64)
    requires BetweenGuards(va) && Explains(r, va, x)
    ensures MatchIn(r, va).Some? && MatchIn(r, va).value <= x
  {
    if r.end <= TWO64 - PAGE {
      var first := FirstWithOffset(r, va);
      AliasOffset(va);
      DiffCases(va, x);
      DiffCases(va, first);
      if x < first { SameOffsetStep(first, x); }
      if x > ALIAS + va { SameOffsetStep(x, ALIAS + va); }
    }
  }

  /** Stepping past those two never helps. So the search is complete, and what it finds is the least
      explanation. */
  lemma MatchIsLeast(r: Range, va: u64)
    requires BetweenGuards(va)
    ensures MatchIn(r, va).Some? ==> Explains(r, va, MatchIn(r, va).value)
    ensures forall x: u64 :: Explains(r, va, x) ==> MatchIn(r, va).Some? && MatchIn(r, va).value <= x
  {
    MatchExplains(r, va);
    forall x: u64 | Explains(r, va, x) ensures MatchIn(r, va).Some? && MatchIn(r, va).value <= x {
      MatchAtMost(r, va, x);
    }
  }

  function VaToFile(ranges: seq<Range>, va: u64): u64 {
    if BetweenGuards(va) then FirstMatch(ranges, va) else va
  }

  /** The match of the first range that has one, else `va`. */
  function FirstMatch(ranges: seq<Range>, va: u64): u64 {
    if ranges == [] then va
    else match MatchIn(ranges[0], va)
      case Some(x) => x
      case None => FirstMatch(ranges[1..], va)
  }

  /** Between the guards the mapping gives the least explanation in the first range that has one, and leaves
      the address alone when no range has any. */
  lemma {:induction false} VaToFileMeaning(ranges: seq<Range>, va: u64)
    requires BetweenGuards(va)
    ensures (exists i: nat :: i < |ranges| && IsFirstLeast(ranges, va, i, VaToFile(ranges, va)))
         || ((forall r <- ranges, x: u64 :: !Explains(r, va, x)) && VaToFile(ranges, va) == va)
  {
    if ranges != [] {
      MatchIsLeast(ranges[0], va);
      if MatchIn(ranges[0], va).Some? {
        assert IsFirstLeast(ranges, va, 0, VaToFile(ranges, va));
      } else {
        VaToFileMeaning(ranges[1..], va);
        assert VaToFile(ranges, va) == VaToFile(ranges[1..], va);
        if i: nat :| i < |ranges[1..]| && IsFirstLeast(ranges[1..], va, i, VaToFile(ranges[1..], va)) {
          assert forall j: nat :: 0 < j < |ranges| ==> ranges[j] == ranges[1..][j - 1];
          assert IsFirstLeast(ranges, va, i + 1, VaToFile(ranges, va));
        } else {
          assert ranges == [ranges[0]] + ranges[1..];
        }
      }
    }
  }

  /** Range `i` is the first that explains `va`, and `x` is its least explanation. */
  ghost predicate IsFirstLeast(ranges: seq<Range>, va: u64, i: nat, x: u64) {
    && i < |ranges| && Explains(ranges[i], va, x)
    && (forall y: u64 :: Explains(ranges[i], va, y) ==> x <= y)
    && (forall j: nat, y: u64 :: j < i ==> !Explains(ranges[j], va, y))
  }

  // ----- the page loop -----

  /** The page the loop over a range is at after `k` rounds, and the last page it goes to. */
  function PageAt(r: Range, k: nat): u64 {
    Wrap64(r.start / PAGE * PAGE + k * PAGE)
  }

  function LastPage(r: Range): u64 {
    Wrap64(r.end + 0xFFF) / PAGE * PAGE
  }

  /** Ends for which the last page is the last one of the address space, so that stepping past it wraps. */
  predicate EndsOnLastPage(end: u64) {
    TWO64 - 2 * PAGE < end <= TWO64 - PAGE
  }

  lemma LastPageCases(r: Range)
    ensures LastPage(r) % PAGE == 0
    ensures EndsOnLastPage(r.end) <==> LastPage(r) == TWO64 - PAGE
    ensures !EndsOnLastPage(r.end) ==> LastPage(r) <= TWO64 - 2 * PAGE
    ensures r.end > TWO64 - PAGE ==> LastPage(r) == 0
    ensures r.end <= TWO64 - PAGE ==> r.end <= LastPage(r) < r.end + PAGE
  {
  }

  lemma PageAtReaches(r: Range, page: u64)
    requires page % PAGE == 0 && page >= r.start / PAGE * PAGE
    ensures page / PAGE >= r.start / PAGE && PageAt(r, page / PAGE - r.start / PAGE) == page
  {
  }

  lemma PageAtAligned(r: Range, k: nat)
    ensures PageAt(r, k) <= TWO64 - PAGE
  {
    var n := r.start / PAGE + k;
    assert r.start / PAGE * PAGE + k * PAGE == n * PAGE;
    var q, m := n / (TWO64 / PAGE), n % (TWO64 / PAGE);
    assert n * PAGE == q * TWO64 + m * PAGE;
    DivUnique(n * PAGE, TWO64, q, m * PAGE);
  }

  /** The guard of the loop never fails exactly when the range ends on the last page but one. */
  lemma GuardNeverFailsIff(r: Range)
    ensures (forall k: nat :: PageAt(r, k) <= LastPage(r)) <==> EndsOnLastPage(r.end)
  {
    LastPageCases(r);
    if EndsOnLastPage(r.end) {
      forall k: nat ensures PageAt(r, k) <= LastPage(r) { PageAtAligned(r, k); }
    } else {
      PageAtReaches(r, TWO64 - PAGE);
      assert PageAt(r, (TWO64 - PAGE) / PAGE - r.start / PAGE) > LastPage(r);
    }
  }

  /** The loop goes round for ever exactly when, besides, nothing in the range explains the address. */
  lemma SearchRunsForeverIff(r: Range, va: u64)
    ensures (forall k: nat :: PageAt(r, k) <= LastPage(r) && !Explains(r, va, PageAt(r, k) + va % PAGE)) <==>
      EndsOnLastPage(r.end) && forall x: u64 :: !Explains(r, va, x)
  {
    GuardNeverFailsIff(r);
    forall k: nat ensures PageAt(r, k) + va % PAGE < TWO64 { PageAtAligned(r, k); }
    if forall k: nat :: PageAt(r, k) <= LastPage(r) && !Explains(r, va, PageAt(r, k) + va % PAGE) {
      assert forall k: nat :: PageAt(r, k) <= LastPage(r);
      forall x: u64 | r.start <= x && x % PAGE == va % PAGE ensures !Explains(r, va, x) {
        PageOf(x, va);
        PageAtReaches(r, x / PAGE * PAGE);
      }
    }
  }

  /** The loop comes to an end. */
  ghost predicate SearchEnds(r: Range, va: u64) {
    EndsOnLastPage(r.end) ==> exists x: u64 :: Explains(r, va, x)
  }

  lemma PageOf(x: u64, va: u64)
    requires x % PAGE == va % PAGE
    ensures x / PAGE * PAGE + va % PAGE == x
  {
  }

  /** The match, if there is one, does not lie before `page`. */
  ghost predicate NotPassed(r: Range, va: u64, page: int)
  {
    MatchIn(r, va).Some? ==> MatchIn(r, va).value >= page
  }

  lemma FirstPage(r: Range, va: u64)
    requires BetweenGuards(va)
    ensures (r.start / PAGE * PAGE) % PAGE == 0 && NotPassed(r, va, r.start / PAGE * PAGE)
  {
    PageBelow(r.start);
    MatchExplains(r, va);
  }

  lemma PageBelow(x: nat)
    ensures (x / PAGE * PAGE) % PAGE == 0 && x / PAGE * PAGE <= x
  {
  }

  lemma CandidateFound(r: Range, va: u64, page: int)
    requires BetweenGuards(va) && page % PAGE == 0 && NotPassed(r, va, page)
    requires 0 <= page + va % PAGE < TWO64 && Explains(r, va, page + va % PAGE)
    ensures MatchIn(r, va) == Some(page + va % PAGE)
  {
    MatchAtMost(r, va, page + va % PAGE);
    MatchExplains(r, va);
    if MatchIn(r, va).value != page + va % PAGE {
      OnLaterPage(page, va % PAGE, MatchIn(r, va).value);
    }
  }

  lemma CandidateRejected(r: Range, va: u64, page: int)
    requires BetweenGuards(va) && page % PAGE == 0 && NotPassed(r, va, page)
    requires 0 <= page + va % PAGE < TWO64 && !Explains(r, va, page + va % PAGE)
    ensures (page + PAGE) % PAGE == 0 && NotPassed(r, va, page + PAGE)
  {
    MatchExplains(r, va);
    if MatchIn(r, va).Some? {
      OnLaterPage(page, va % PAGE, MatchIn(r, va).value);
    }
  }

  lemma PageOffsetOf(page: int, off: int)
    requires page % PAGE == 0 && 0 <= off < PAGE
    ensures (page + off) % PAGE == off
  {
  }

  lemma OnLaterPage(page: int, off: int, x: int)
    requires page % PAGE == 0 && x >= page && x % PAGE == off && x != page + off
    ensures x >= page + PAGE
  {
  }

  /** A range that ends on the last page is left before the page counter wraps if anything explains the address. */
  lemma NoWrapBeforeMatch(r: Range, va: u64, page: u64)
    requires BetweenGuards(va) && SearchEnds(r, va) && NotPassed(r, va, page)
    requires page % PAGE == 0 && page <= LastPage(r)
    ensures page <= TWO64 - 2 * PAGE
  {
    LastPageCases(r);
    if EndsOnLastPage(r.end) {
      var x: u64 :| Explains(r, va, x);
      MatchAtMost(r, va, x);
      MatchExplains(r, va);
      assert page <= MatchIn(r, va).value < TWO64 - PAGE;
      PageStep(page);
    }
  }

  lemma PageStep(page: u64)
    requires page % PAGE == 0 && page < TWO64 - PAGE
    ensures page <= TWO64 - 2 * PAGE
  {
  }

  /** The page loop over one range. */
  method SearchRange(r: Range, va: u64) returns (found: Option<u64>)
    requires BetweenGuards(va) && SearchEnds(r, va)
    ensures found == MatchIn(r, va)
  {
    var pageOffset := va % PAGE;
    var page := r.start / PAGE * PAGE;
    var pageEnd := Wrap64(r.end + 0xFFF) / PAGE * PAGE;
    FirstPage(r, va);
    LastPageCases(r);
    while page <= pageEnd
      invariant page % PAGE == 0 && 0 <= page <= TWO64 - PAGE && NotPassed(r, va, page)
      decreases pageEnd - page
    {
      NoWrapBeforeMatch(r, va, page);
      var candidate: u64 := page + pageOffset;
      PageOffsetOf(page, pageOffset);
      if r.start <= candidate && candidate < r.end {
        var potential := Diff64(va, candidate);
        if InOpenWindow(potential) {
          CandidateFound(r, va, page);
          return Some(candidate);
        }
      }
      CandidateRejected(r, va, page);
      page := Wrap64(page + PAGE);
    }
    NothingPastTheEnd(r, va, page);
    return None;
  }

  lemma NothingPastTheEnd(r: Range, va: u64, page: int)
    requires BetweenGuards(va) && NotPassed(r, va, page) && page > LastPage(r)
    requires page % PAGE == 0 && page <= TWO64 - PAGE
    ensures MatchIn(r, va) == None
  {
    LastPageCases(r);
    MatchExplains(r, va);
  }

  /** So do the searches of the ranges, up to the first that finds a match. */
  ghost predicate SearchesEnd(ranges: seq<Range>, va: u64) {
    ranges != [] ==> SearchEnds(ranges[0], va) && (MatchIn(ranges[0], va) == None ==> SearchesEnd(ranges[1..], va))
  }

  predicate PageLoopsEnd(ranges: seq<Range>) {
    forall r <- ranges :: !EndsOnLastPage(r.end)
  }

  lemma {:induction false} LoopsEndSearches(ranges: seq<Range>, va: u64)
    requires PageLoopsEnd(ranges)
    ensures SearchesEnd(ranges, va)
  {
    if ranges != [] {
      LoopsEndSearches(ranges[1..], va);
    }
  }

  method VaToFileOffset(ranges: seq<Range>, va: u64) returns (x: u64)
    requires BetweenGuards(va) ==> SearchesEnd(ranges, va)
    ensures x == VaToFile(ranges, va)
  {
    if va < LOW_GUARD { return va; }
    if va >= LIBRARIES { return va; }
    var i := 0;
    while i < |ranges|
      invariant 0 <= i <= |ranges|
      invariant FirstMatch(ranges, va) == FirstMatch(ranges[i..], va) && SearchesEnd(ranges[i..], va)
    {
      assert ranges[i..][1..] == ranges[i + 1..];
      var found := SearchRange(ranges[i], va);
      if found.Some? { return found.value; }
      i := i + 1;
    }
    return va;
  }

  predicate InTarget(ranges: seq<Range>, addr: u64) {
    addr < LOW_GUARD
    || (addr < LIBRARIES && exists i :: 0 <= i < |ranges| && InOpenWindow(Diff64(addr, ranges[i].start)))
  }

  /** The target test, written out. */
  lemma InTargetIff(ranges: seq<Range>, addr: u64)
    ensures InTarget(ranges, addr) <==>
      || addr < 0x10_0000
      || (addr < 0x7f00_0000_0000 && exists r <- ranges ::
            IsLoadDistance(addr - r.start) || IsLoadDistance(addr - r.start + TWO64))
  {
    if r :| r in ranges && (IsLoadDistance(addr - r.start) || IsLoadDistance(addr - r.start + TWO64)) {
      var i :| 0 <= i < |ranges| && ranges[i] == r;
      assert InOpenWindow(Diff64(addr, ranges[i].start));
    }
  }

  /** It accepts every address of a range relocated by a base in the window. */
  lemma RelocatedIsInTarget(ranges: seq<Range>, i: nat, x: u64, base: int)
    requires i < |ranges| && ranges[i].start <= x && 0x100_0000 <= base && x + base < 0x7f00_0000_0000
    ensures InTarget(ranges, x + base)
  {
    DiffCases(x + base, ranges[i].start);
  }

  /** The mapping changes no address outside its guards. */
  lemma OutsideGuards(ranges: seq<Range>, va: u64)
    requires va < 0x10_0000 || va >= 0x7f00_0000_0000
    ensures VaToFile(ranges, va) == va
  {
  }

  method IsInTargetBinary(ranges: seq<Range>, addr: u64) returns (b: bool)
    ensures b == InTarget(ranges, addr)
  {
    if addr < LOW_GUARD { return true; }
    if addr >= LIBRARIES { return false; }
    var i := 0;
    while i < |ranges|
      invariant 0 <= i <= |ranges|
      invariant forall j :: 0 <= j < i ==> !InOpenWindow(Diff64(addr, ranges[j].start))
    {
      if InOpenWindow(Diff64(addr, ranges[i].start)) { return true; }
      i := i + 1;
    }
    return false;
  }

  /** No address that only the wrapping difference explains lies in the range away from its start. */
  predicate NoAlias(r: Range) {
    || r.end <= ALIAS + LOW_GUARD + PAGE || r.start >= ALIAS + LIBRARIES || r.end <= r.start + PAGE
    || r.end > TWO64 - PAGE
  }

  lemma MatchIsInTarget(r: Range, va: u64)
    requires NoAlias(r) && BetweenGuards(va) && MatchIn(r, va).Some?
    ensures InOpenWindow(Diff64(va, r.start))
  {
    DiffCases(va, MatchIn(r, va).value);
    DiffCases(va, r.start);
  }

  /** An address the mapping changes is one the target-binary test accepts. */
  lemma {:induction false} ChangedIsInTarget(ranges: seq<Range>, va: u64)
    requires (forall r <- ranges :: NoAlias(r)) && VaToFile(ranges, va) != va
    ensures InTarget(ranges, va)
  {
    if MatchIn(ranges[0], va).Some? {
      MatchIsInTarget(ranges[0], va);
    } else {
      ChangedIsInTarget(ranges[1..], va);
      var i :| 0 <= i < |ranges[1..]| && InOpenWindow(Diff64(va, ranges[1..][i].start));
      assert ranges[i + 1] == ranges[1..][i];
    }
  }

  /** For one range that is exactly the condition. */
  lemma ChangedIsInTargetIff(r: Range)
    ensures (forall va: u64 :: VaToFile([r], va) != va ==> InTarget([r], va)) <==> NoAlias(r)
  {
    if NoAlias(r) {
      forall va: u64 | VaToFile([r], va) != va ensures InTarget([r], va) { ChangedIsInTarget([r], va); }
    } else {
      var va: u64 := if r.start - ALIAS > LOW_GUARD then r.start - ALIAS else LOW_GUARD;
      AliasedAddress(r, va);
    }
  }

  lemma AliasedAddress(r: Range, va: u64)
    requires !NoAlias(r) && va == if r.start - ALIAS > LOW_GUARD then r.start - ALIAS else LOW_GUARD
    ensures VaToFile([r], va) != va && !InTarget([r], va)
  {
  }

  /** The mapping undoes relocation by a page-aligned base exactly for addresses in the first 4096 bytes of
      the range that the loop reaches. */
  lemma UndoesRelocationIff(r: Range, x: u64, base: int)
    requires r.start <= x < r.end
    requires base % PAGE == 0 && base >= WINDOW_LOW && x + base < LIBRARIES
    ensures VaToFile([r], x + base) == x <==> x < r.start + PAGE && IsReached(r.end, x)
  {
    var va := x + base;
    assert va % PAGE == x % PAGE;
    DiffCases(va, x);
    if r.end <= TWO64 - PAGE {
      var first := FirstWithOffset(r, va);
      if x < first { SameOffsetStep(first, x); }
      if first < x { SameOffsetStep(x, first); }
      DiffCases(va, first);
    } else if x < PAGE {
      assert MatchIn(r, va) == Some(x);
    } else {
      assert MatchIn(r, va).Some? ==> MatchIn(r, va).value < PAGE;
    }
    OneRange(r, va);
  }

  lemma OneRange(r: Range, va: u64)
    requires BetweenGuards(va)
    ensures VaToFile([r], va) == match MatchIn(r, va) case Some(x) => x case None => va
  {
    assert [r][1..] == [] && FirstMatch([], va) == va;
  }

  // ----- detecting the range -----

  datatype Extent = Extent(lo: u64, hi: u64)

  function SubprogramExtent(sp: SubprogramInfo): Option<Extent> {
    if sp.lowPc == 0 || sp.highPc == 0 || EndPc(sp) <= sp.lowPc then None else Some(Extent(sp.lowPc, EndPc(sp)))
  }

  function SymbolExtent(sym: SymbolInfo): Option<Extent> {
    if sym.address == 0 then None
    else Some(Extent(sym.address, Wrap64(sym.address + if sym.size > 0 then sym.size else 1)))
  }

  /** `[lo, hi)` encloses every extent, and both ends are taken from extents. */
  ghost predicate IsHull(es: set<Extent>, lo: u64, hi: u64) {
    && (forall e <- es :: lo <= e.lo && e.hi <= hi)
    && (exists e <- es :: e.lo == lo) && (exists e <- es :: e.hi == hi)
  }

  /** The running minimum and maximum over the extents seen so far. */
  ghost predicate Bounds(es: set<Extent>, lo: u64, hi: u64) {
    if es == {} then lo == TWO64 - 1 && hi == 0 else IsHull(es, lo, hi)
  }

  ghost function AsSet(e: Option<Extent>): set<Extent> {
    if e.Some? then {e.value} else {}
  }

  ghost function SubprogramExtents(subprograms: seq<SubprogramInfo>): set<Extent> {
    if subprograms == [] then {}
    else SubprogramExtents(subprograms[..|subprograms| - 1]) + AsSet(SubprogramExtent(subprograms[|subprograms| - 1]))
  }

  ghost function SymbolExtents(symbols: seq<SymbolInfo>): set<Extent> {
    if symbols == [] then {} else SymbolExtents(symbols[..|symbols| - 1]) + AsSet(SymbolExtent(symbols[|symbols| - 1]))
  }

  method Widen(lo: u64, hi: u64, e: Option<Extent>, ghost es: set<Extent>) returns (lo': u64, hi': u64)
    requires Bounds(es, lo, hi)
    ensures Bounds(es + AsSet(e), lo', hi')
  {
    if e == None {
      assert es + AsSet(e) == es;
      return lo, hi;
    }
    lo' := if e.value.lo < lo then e.value.lo else lo;
    hi' := if e.value.hi > hi then e.value.hi else hi;
    assert e.value in es + AsSet(e);
    if es != {} {
      var a :| a in es && a.lo == lo;
      var b :| b in es && b.hi == hi;
      assert a in es + AsSet(e) && b in es + AsSet(e);
    }
  }

  ghost function Extents(subprograms: seq<SubprogramInfo>, symbols: seq<SymbolInfo>): set<Extent> {
    SubprogramExtents(subprograms) + SymbolExtents(symbols)
  }

  /** At most one range, the tight hull of all extents; none only when there is nothing to enclose. */
  ghost predicate AreDetected(es: set<Extent>, ranges: seq<Range>) {
    && |ranges| <= 1
    && (ranges != [] ==> ranges[0].start < ranges[0].end && IsHull(es, ranges[0].start, ranges[0].end))
    && (ranges == [] ==> forall e <- es :: e.lo == TWO64 - 1 || e.hi <= e.lo)
  }

  /** The code of a subprogram that has any: `highPc` counts from `lowPc` or is the end. */
  predicate IsCode(sp: SubprogramInfo, lo: u64, hi: u64) {
    && sp.lowPc != 0 && sp.highPc != 0 && lo == sp.lowPc < hi
    && hi == if sp.highPcIsOffset then sp.lowPc + sp.highPc else sp.highPc
  }

  /** The bytes of a symbol, at least one. */
  predicate IsData(sym: SymbolInfo, lo: u64, hi: u64) {
    sym.address != 0 && lo == sym.address && hi == sym.address + if sym.size == 0 then 1 else sym.size
  }

  lemma {:induction false} CodeIsExtent(subprograms: seq<SubprogramInfo>, sp: SubprogramInfo, lo: u64, hi: u64)
    requires sp in subprograms && IsCode(sp, lo, hi)
    ensures Extent(lo, hi) in SubprogramExtents(subprograms)
  {
    var n := |subprograms| - 1;
    if sp == subprograms[n] {
      assert SubprogramExtent(sp) == Some(Extent(lo, hi));
    } else {
      CodeIsExtent(subprograms[..n], sp, lo, hi);
    }
  }

  lemma {:induction false} DataIsExtent(symbols: seq<SymbolInfo>, sym: SymbolInfo, lo: u64, hi: u64)
    requires sym in symbols && IsData(sym, lo, hi)
    ensures Extent(lo, hi) in SymbolExtents(symbols)
  {
    var n := |symbols| - 1;
    if sym == symbols[n] {
      assert SymbolExtent(sym) == Some(Extent(lo, hi));
    } else {
      DataIsExtent(symbols[..n], sym, lo, hi);
    }
  }

  lemma {:induction false} ExtentIsCode(subprograms: seq<SubprogramInfo>, e: Extent)
    requires e in SubprogramExtents(subprograms)
    ensures exists sp <- subprograms :: IsCode(sp, e.lo, e.hi)
  {
    var n := |subprograms| - 1;
    assert subprograms[n] in subprograms;
    if SubprogramExtent(subprograms[n]) == Some(e) {
      assert IsCode(subprograms[n], e.lo, e.hi);
    } else {
      ExtentIsCode(subprograms[..n], e);
      var sp :| sp in subprograms[..n] && IsCode(sp, e.lo, e.hi);
      assert sp in subprograms;
    }
  }

  /** The detected range holds the code of every subprogram and the bytes of every symbol. */
  lemma DetectedRangeHolds(
      subprograms: seq<SubprogramInfo>, symbols: seq<SymbolInfo>, ranges: seq<Range>, lo: u64, hi: u64)
    requires AreDetected(Extents(subprograms, symbols), ranges)
    requires (exists sp <- subprograms :: IsCode(sp, lo, hi)) || (exists sym <- symbols :: IsData(sym, lo, hi))
    ensures |ranges| == 1 && ranges[0].start <= lo && hi <= ranges[0].end
  {
    if sp :| sp in subprograms && IsCode(sp, lo, hi) {
      CodeIsExtent(subprograms, sp, lo, hi);
    } else {
      var sym :| sym in symbols && IsData(sym, lo, hi);
      DataIsExtent(symbols, sym, lo, hi);
    }
    assert Extent(lo, hi) in Extents(subprograms, symbols);
  }

  lemma {:induction false} ExtentIsData(symbols: seq<SymbolInfo>, e: Extent)
    requires e in SymbolExtents(symbols)
    ensures exists sym <- symbols :: SymbolSpans(sym, e.lo, e.hi)
  {
    var n := |symbols| - 1;
    assert symbols[n] in symbols;
    if SymbolExtent(symbols[n]) == Some(e) {
      assert SymbolSpans(symbols[n], e.lo, e.hi);
    } else {
      ExtentIsData(symbols[..n], e);
      var sym :| sym in symbols[..n] && SymbolSpans(sym, e.lo, e.hi);
      assert sym in symbols;
    }
  }

  /** As `IsData`, with the wrap-around of the code. */
  predicate SymbolSpans(sym: SymbolInfo, lo: u64, hi: u64) {
    sym.address != 0 && lo == sym.address && hi == (sym.address + if sym.size == 0 then 1 else sym.size) % TWO64
  }

  /** The bytes from `lo` to `hi` are some subprogram's or some symbol's. */
  ghost predicate IsSpan(subprograms: seq<SubprogramInfo>, symbols: seq<SymbolInfo>, lo: u64, hi: u64) {
    (exists sp <- subprograms :: IsCode(sp, lo, hi)) || (exists sym <- symbols :: SymbolSpans(sym, lo, hi))
  }

  lemma ExtentIsSpan(subprograms: seq<SubprogramInfo>, symbols: seq<SymbolInfo>, e: Extent)
    requires e in Extents(subprograms, symbols)
    ensures IsSpan(subprograms, symbols, e.lo, e.hi)
  {
    if e in SubprogramExtents(subprograms) {
      ExtentIsCode(subprograms, e);
    } else {
      ExtentIsData(symbols, e);
    }
  }

  /** Each end of the range is that of some subprogram's code or some symbol. */
  lemma DetectedRangeIsTight(subprograms: seq<SubprogramInfo>, symbols: seq<SymbolInfo>, ranges: seq<Range>)
    returns (firstEnd: u64, lastStart: u64)
    requires AreDetected(Extents(subprograms, symbols), ranges) && ranges != []
    ensures IsSpan(subprograms, symbols, ranges[0].start, firstEnd)
    ensures IsSpan(subprograms, symbols, lastStart, ranges[0].end)
  {
    var es := Extents(subprograms, symbols);
    var first :| first in es && first.lo == ranges[0].start;
    var last :| last in es && last.hi == ranges[0].end;
    ExtentIsSpan(subprograms, symbols, first);
    ExtentIsSpan(subprograms, symbols, last);
    return first.hi, last.lo;
  }

  /** In a detected range the mapping undoes relocation exactly for the addresses less than a page past the
      start of every extent, and reached whatever the extent ends at. */
  lemma DetectedRangeUndoesRelocationIff(es: set<Extent>, ranges: seq<Range>, e: Extent, x: u64, base: int)
    requires AreDetected(es, ranges) && e in es && e.lo <= x < e.hi
    requires base % PAGE == 0 && base >= WINDOW_LOW && x + base < LIBRARIES
    ensures VaToFile(ranges, x + base) == x <==> forall f <- es :: x < f.lo + PAGE && IsReached(f.hi, x)
  {
    assert ranges == [ranges[0]];
    UndoesRelocationIff(ranges[0], x, base);
  }

  /** One range from the least start to the greatest end, or none when there is nothing to enclose. */
  method DetectBinaryRanges(subprograms: seq<SubprogramInfo>, symbols: seq<SymbolInfo>) returns (ranges: seq<Range>)
    ensures AreDetected(Extents(subprograms, symbols), ranges)
  {
    var minAddr: u64, maxAddr: u64 := TWO64 - 1, 0;
    var i := 0;
    while i < |subprograms|
      invariant 0 <= i <= |subprograms|
      invariant Bounds(SubprogramExtents(subprograms[..i]), minAddr, maxAddr)
    {
      assert subprograms[..i + 1][..i] == subprograms[..i];
      minAddr, maxAddr :=
        Widen(minAddr, maxAddr, SubprogramExtent(subprograms[i]), SubprogramExtents(subprograms[..i]));
      i := i + 1;
    }
    assert subprograms[..i] == subprograms;
    ghost var es := SubprogramExtents(subprograms);
    assert es + SymbolExtents(symbols[..0]) == es;
    i := 0;
    while i < |symbols|
      invariant 0 <= i <= |symbols|
      invariant Bounds(es + SymbolExtents(symbols[..i]), minAddr, maxAddr)
    {
      assert symbols[..i + 1][..i] == symbols[..i];
      ghost var sofar := SymbolExtents(symbols[..i]);
      minAddr, maxAddr := Widen(minAddr, maxAddr, SymbolExtent(symbols[i]), es + sofar);
      assert es + sofar + AsSet(SymbolExtent(symbols[i])) == es + (sofar + AsSet(SymbolExtent(symbols[i])));
      i := i + 1;
    }
    assert symbols[..i] == symbols;
    if minAddr != TWO64 - 1 && maxAddr > minAddr {
      ranges := [Range(minAddr, maxAddr)];
    } else {
      ranges := [];
    }
  }
}
