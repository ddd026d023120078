/** Finding a global from its run-time address: the look-up, when it recovers the symbol an address was relocated
    from, and which addresses it takes for a global's. */
module Globals {
  import opened Words
  import opened Dwarf
  import opened LoadBase

  /** The symbol a global address resolves to and the load base used to get there, 0 for a direct hit. */
  function GlobalLookup(symbols: seq<SymbolInfo>, address: u64): (r: Option<(nat, int)>)
    ensures r.Some? ==> r.value.0 < |symbols|
  {
    match SymbolAt(symbols, address)
    case Some(p) => Some((p, 0))
    case None => ShiftedLookup(symbols, address, Winner(GlobalVotes(address, symbols)))
  }

  function ShiftedLookup(symbols: seq<SymbolInfo>, address: u64, base: int): (r: Option<(nat, int)>)
    ensures r.Some? ==> r.value.0 < |symbols|
  {
    if base == 0 then None
    else match SymbolAt(symbols, Wrap64(address - base))
      case Some(p) => Some((p, base))
      case None => None
  }

  lemma WinnerIff(votes: seq<int>, base: int)
    requires base != 0
    ensures IsWinner(multiset(votes), base) <==> Winner(votes) == base
  {
    if votes != [] {
      WinnerWins(votes);
      if IsWinner(multiset(votes), base) { WinnerUnique(multiset(votes), base, Winner(votes)); }
    }
  }

  /** The look-up hits a symbol with the extent of symbol `i`, at offset `off` into it. */
  predicate HitsAt(symbols: seq<SymbolInfo>, hit: Option<(nat, int)>, address: u64, i: nat, off: u64)
    requires i < |symbols| && (hit.Some? ==> hit.value.0 < |symbols|)
  {
    && hit.Some? && SameExtent(symbols[hit.value.0], symbols[i])
    && Wrap64(Wrap64(address - hit.value.1) - symbols[hit.value.0].address) == off
  }

  // ----- recovery -----

  lemma OffsetTellsBase(address: u64, used: nat, c: u64, base: nat, start: u64)
    requires address == c + base && start <= c && used < TWO63
    requires Wrap64(Wrap64(address - used) - start) == c - start
    ensures used == base
  {
  }

  /** A look-up that arrives at the true offset has used the true base. */
  lemma HitTellsBase(symbols: seq<SymbolInfo>, hit: Option<(nat, int)>, address: u64, i: nat, c: u64, base: nat)
    requires i < |symbols| && (hit.Some? ==> hit.value.0 < |symbols|) && InExtent(symbols[i], c)
    requires address == c + base && HitsAt(symbols, hit, address, i, c - symbols[i].address) && 0 <= hit.value.1 < TWO63
    ensures hit.value.1 == base
  {
    OffsetTellsBase(address, hit.value.1, c, base, symbols[i].address);
  }

  /** Without a direct hit the base used is the winner of the vote. */
  lemma HitBase(symbols: seq<SymbolInfo>, address: u64)
    requires GlobalLookup(symbols, address).Some?
    ensures 0 <= GlobalLookup(symbols, address).value.1 < TWO63
    ensures if SymbolAt(symbols, address).Some? then GlobalLookup(symbols, address).value.1 == 0
      else 0 != GlobalLookup(symbols, address).value.1 == Winner(GlobalVotes(address, symbols))
  {
    GlobalBaseShape(address, symbols);
  }

  /** Symbol `i` is the one that a look-up at `c` gives, up to its extent. */
  predicate Represents(symbols: seq<SymbolInfo>, c: u64, i: nat)
    requires i < |symbols|
  {
    SymbolAt(symbols, c).Some? && SameExtent(symbols[SymbolAt(symbols, c).value], symbols[i])
  }

  /** A global at file address `c` is found again from its run-time address, at the same offset, exactly when that
      address is not itself a symbol's, the true base wins the vote, smallest of those with most votes, and the
      file address itself leads to the symbol. */
  lemma GlobalRecoveryIff(symbols: seq<SymbolInfo>, c: u64, address: u64, base: nat, i: nat)
    requires base > 0 && address == c + base && i < |symbols| && InExtent(symbols[i], c)
    ensures HitsAt(symbols, GlobalLookup(symbols, address), address, i, c - symbols[i].address) <==>
      && SymbolAt(symbols, address) == None
      && IsWinner(multiset(GlobalVotes(address, symbols)), base) && Represents(symbols, c, i)
  {
    WinnerIff(GlobalVotes(address, symbols), base);
    if HitsAt(symbols, GlobalLookup(symbols, address), address, i, c - symbols[i].address) {
      HitBase(symbols, address);
      HitTellsBase(symbols, GlobalLookup(symbols, address), address, i, c, base);
      HitFrom(symbols, address, c, base);
    } else if SymbolAt(symbols, address) == None && Winner(GlobalVotes(address, symbols)) == base {
      HitFrom(symbols, address, c, base);
    }
  }

  /** With the true base the look-up is the one at the file address. */
  lemma HitFrom(symbols: seq<SymbolInfo>, address: u64, c: u64, base: nat)
    requires base > 0 && address == c + base
    requires SymbolAt(symbols, address) == None && Winner(GlobalVotes(address, symbols)) == base
    ensures GlobalLookup(symbols, address) ==
      match SymbolAt(symbols, c) case Some(p) => Some((p, base)) case None => None
  {
    assert GlobalLookup(symbols, address) == ShiftedLookup(symbols, address, base);
    assert Wrap64(address - base) == c;
  }

  /** In particular when the symbol is apart there. */
  lemma GlobalRecovery(symbols: seq<SymbolInfo>, c: u64, address: u64, base: int, i: nat)
    requires address == c + base && SymbolAt(symbols, address) == None
    requires IsWinner(multiset(GlobalVotes(address, symbols)), base)
    requires i < |symbols| && InExtent(symbols[i], c) && ApartAt(symbols, i, c)
    ensures base % PAGE == 0 && InWindow(base)
    ensures HitsAt(symbols, GlobalLookup(symbols, address), address, i, c - symbols[i].address)
  {
    assert base in GlobalVotes(address, symbols);
    GlobalVotesShape(address, symbols);
    ApartSymbolFound(symbols, c, i);
    GlobalRecoveryIff(symbols, c, address, base, i);
  }

  /** A global is never found at its true offset from an address past the first page of its symbol. */
  lemma LaterPageNeverRecovered(symbols: seq<SymbolInfo>, c: u64, address: u64, base: nat, i: nat)
    requires base > 0 && address == c + base && i < |symbols| && InExtent(symbols[i], c)
    requires c / PAGE != symbols[i].address / PAGE
    ensures !HitsAt(symbols, GlobalLookup(symbols, address), address, i, c - symbols[i].address)
  {
    GlobalRecoveryIff(symbols, c, address, base, i);
    if Represents(symbols, c, i) {
      LaterPageGetsNoVote(c, base, symbols);
      WinnerHasVotes(GlobalVotes(address, symbols), base);
    }
  }

  lemma WinnerHasVotes(votes: seq<int>, v: int)
    requires v !in votes
    ensures !IsWinner(multiset(votes), v)
  {
  }

  /** What comes out instead: an object of three pages at 0x4000, loaded at 0x5555_5555_4000. The byte at offset
      0x1010 is taken for the one at offset 0x10, a page further up. */
  lemma SecondPageIsMisread(g: SymbolInfo, base: int)
    requires g.address == 0x4000 && g.size == 0x3000 && g.kind == ObjectSymbol && base == 0x5555_5555_4000
    ensures InExtent(g, 0x5010) && GlobalLookup([g], base + 0x5010) == Some((0, base + PAGE))
    ensures HitsAt([g], GlobalLookup([g], base + 0x5010), base + 0x5010, 0, 0x10)
  {
    OneSymbol(g, base + 0x5010);
    OneSymbol(g, 0x4010);
    OneVote(g, base + 0x5010);
  }

  lemma OneSymbol(s: SymbolInfo, addr: u64)
    requires s.address < addr
    ensures SymbolAt([s], addr) == if InExtent(s, addr) then Some(0) else None
  {
    assert [s][..0] == [];
    assert LastGreatestStart([s], addr) == 0;
  }

  lemma OneVote(s: SymbolInfo, addr: u64)
    ensures Winner(GlobalVotes(addr, [s])) == if GlobalVote(addr, s).Some? then GlobalVote(addr, s).value else 0
  {
    assert [s][..0] == [] && GlobalVotes(addr, []) == [];
    if GlobalVote(addr, s).Some? {
      var v := GlobalVote(addr, s).value;
      assert GlobalVotes(addr, [s]) == [v];
      assert [v][..0] == [] && Winner([v]) == v;
    }
  }

  /** A symbol that is hit starts at or below the address it is hit at. */
  lemma HitStartsBelow(symbols: seq<SymbolInfo>, address: u64)
    requires GlobalLookup(symbols, address).Some?
    ensures var (p, base) := GlobalLookup(symbols, address).value; symbols[p].address <= Wrap64(address - base)
  {
    GreatestStartFacts(symbols, address);
    GreatestStartFacts(symbols, Wrap64(address - Winner(GlobalVotes(address, symbols))));
  }

  // ----- which addresses are taken for a global's -----

  /** Symbol `i` votes, and for the winner. */
  predicate IsWinningVoter(symbols: seq<SymbolInfo>, address: u64, i: nat)
    requires i < |symbols|
  {
    var v := GlobalVote(address, symbols[i]);
    v.Some? && IsWinner(multiset(GlobalVotes(address, symbols)), v.value)
  }

  /** Symbol `i` votes for the winning base, and the address its vote was cast for, on its first page, leads to a
      symbol. */
  predicate IsClaim(symbols: seq<SymbolInfo>, address: u64, i: nat)
    requires i < |symbols|
  {
    IsWinningVoter(symbols, address, i) && SymbolAt(symbols, SamePageOffset(address, symbols[i])).Some?
  }

  /** A symbol is hit directly, or some object makes a claim by its vote. */
  predicate IsClaimed(symbols: seq<SymbolInfo>, address: u64) {
    || SymbolAt(symbols, address).Some?
    || exists i: nat :: i < |symbols| && IsClaim(symbols, address, i)
  }

  lemma ShiftedByVote(symbols: seq<SymbolInfo>, address: u64, i: nat)
    requires i < |symbols| && GlobalVote(address, symbols[i]).Some?
    ensures ShiftedLookup(symbols, address, GlobalVote(address, symbols[i]).value).Some? <==>
      SymbolAt(symbols, SamePageOffset(address, symbols[i])).Some?
  {
    VoteLeadsBack(address, symbols[i]);
  }

  /** The look-up answers exactly for the claimed addresses, be they a global's or not. */
  lemma GlobalHitIff(symbols: seq<SymbolInfo>, address: u64)
    ensures GlobalLookup(symbols, address).Some? <==> IsClaimed(symbols, address)
  {
    var votes := GlobalVotes(address, symbols);
    if SymbolAt(symbols, address) == None {
      if i: nat :| i < |symbols| && IsClaim(symbols, address, i) {
        ShiftedByVote(symbols, address, i);
        VoteLeadsBack(address, symbols[i]);
        WinnerIff(votes, GlobalVote(address, symbols[i]).value);
      }
      if GlobalLookup(symbols, address).Some? {
        HitBase(symbols, address);
        var w := Winner(votes);
        WinnerIff(votes, w);
        assert w in multiset(votes);
        var i := VoterOf(address, symbols, w);
        ShiftedByVote(symbols, address, i);
        assert IsClaim(symbols, address, i);
      }
    }
  }

  /** If every object that votes has a size and is apart on its first page, a single vote is enough. */
  lemma ClaimedIffVoted(symbols: seq<SymbolInfo>, address: u64)
    requires forall i: nat :: i < |symbols| && GlobalVote(address, symbols[i]).Some? ==>
      symbols[i].size > 0 && ApartAt(symbols, i, SamePageOffset(address, symbols[i]))
    ensures IsClaimed(symbols, address) <==>
      SymbolAt(symbols, address).Some? || exists s <- symbols :: GlobalVote(address, s).Some?
  {
    if i: nat :| i < |symbols| && GlobalVote(address, symbols[i]).Some? {
      VoteIsCast(address, symbols, i);
      var votes := GlobalVotes(address, symbols);
      WinnerWins(votes);
      assert Winner(votes) in multiset(votes);
      var k := VoterOf(address, symbols, Winner(votes));
      ApartSymbolFound(symbols, SamePageOffset(address, symbols[k]), k);
      assert IsClaim(symbols, address, k);
    }
  }

  /** So a heap address may be taken for a global's: an object of 0x100 bytes at 0x4020 claims 0x5555_5555_90a0,
      whatever is allocated there, because its first page holds the page offset 0xa0. */
  lemma HeapAddressIsClaimed(g: SymbolInfo)
    requires g.address == 0x4020 && g.size == 0x100 && g.kind == ObjectSymbol
    ensures GlobalLookup([g], 0x5555_5555_90a0) == Some((0, 0x5555_5555_5000)) && IsClaimed([g], 0x5555_5555_90a0)
  {
    OneSymbol(g, 0x5555_5555_90a0);
    OneSymbol(g, 0x40a0);
    OneVote(g, 0x5555_5555_90a0);
    GlobalHitIff([g], 0x5555_5555_90a0);
  }

  // ----- the look-up itself -----

  /** A direct look-up, and if that fails one at the address minus the load base the symbols vote for. */
  method LookupGlobal(analyzer: DwarfAnalyzer, address: u64) returns (r: Option<(nat, int)>)
    requires analyzer.Valid()
    ensures r == GlobalLookup(analyzer.symbols, address)
  {
    var direct := analyzer.FindSymbolByAddr(address);
    if direct.Some? { return Some((direct.value, 0)); }
    var base := ComputeAslrFromGlobalAddr(address, analyzer.symbols);
    r := LookupShifted(analyzer, address, base);
  }

  method LookupShifted(analyzer: DwarfAnalyzer, address: u64, base: int) returns (r: Option<(nat, int)>)
    requires analyzer.Valid()
    ensures r == ShiftedLookup(analyzer.symbols, address, base)
  {
    if base == 0 { return None; }
    var shifted := analyzer.FindSymbolByAddr(Wrap64(address - base));
    if shifted.Some? { return Some((shifted.value, base)); }
    return None;
  }
}
