/** The CSV file between the two programs: `write_csv_batch` of the collector prints the allocation table,
    `load_csv` of the resolver reads it back. */
module CsvBridge {
  import opened Words
  import opened Replay
  import opened Format
  import Collector

  /** The resolver's `AllocInfo`. */
  datatype AllocEntry = AllocEntry(
    addr: u64, size: u64, stackId: i64, timestamp: u64, pid: u32, tid: u32,
    live: bool, stackDepth: i32, stackPcs: seq<u64>)

  // In pieces: the verifier shows of each short literal, not of one long one, that it has no newline.
  const HEADER: string :=
    "address,size,pid," + "tid,live," + "timestamp_alloc," + "timestamp_free," + "stack_id," + "stack_depth,stack_pcs"

  /** The nine fields of a row. The functions below work for any format with these conversions. */
  predicate IsRow(fmt: seq<Field>) {
    && |fmt| == 9 && Separated(fmt) && fmt[0].prefix == "0x"
    && fmt[0].conv == Hex && fmt[1].conv == Dec && fmt[2].conv == Dec32 && fmt[3].conv == Dec32 && fmt[4].conv == Word
    && fmt[5].conv == Dec && fmt[6].conv == Dec && fmt[7].conv == SDec && fmt[8].conv == SDec32
  }

  type RowFormat = fmt: seq<Field> | IsRow(fmt)
    witness [Field("0x", Hex), Field(",", Dec), Field(",", Dec32), Field(",", Dec32), Field(",", Word),
             Field(",", Dec), Field(",", Dec), Field(",", SDec), Field(",", SDec32)]

  const ROW: RowFormat := [
    Field("0x", Hex), Field(",", Dec), Field(",", Dec32), Field(",", Dec32), Field(",", Word),
    Field(",", Dec), Field(",", Dec), Field(",", SDec), Field(",", SDec32)]

  const PC: seq<Field> := [Field("0x", Hex)]

  function LiveText(live: bool): string { if live then "1" else "0" }

  function RowValues(r: AllocRecord): (vals: seq<Value>)
    ensures |vals| == 9 && forall fmt: RowFormat :: AllFit(fmt, vals)
  {
    [U(r.addr), U(r.size), U(r.pid), U(r.tid), S(LiveText(r.live)), U(r.timestampAlloc), U(r.timestampFree),
     I(r.stackId), I(r.stackDepth)]
  }

  function PcText(pc: u64): string {
    Sprintf(PC, [U(pc)])
  }

  /** The PCs a row prints: the first `stackDepth` of the 64 slots. */
  function PrintedPcs(r: AllocRecord): seq<u64> {
    if r.stackDepth <= 0 then []
    else if r.stackDepth < COLLECTOR_SLOTS then r.stackPcs[..r.stackDepth]
    else r.stackPcs
  }

  function PcTexts(pcs: seq<u64>): (texts: seq<string>)
    ensures |texts| == |pcs|
  {
    seq(|pcs|, i requires 0 <= i < |pcs| => PcText(pcs[i]))
  }

  /** PCs separated by semicolons. */
  function PcList(pcs: seq<u64>): string {
    if pcs == [] then "" else Terminated(PcTexts(pcs[..|pcs| - 1]), ';') + PcText(pcs[|pcs| - 1])
  }

  function RowText(fmt: RowFormat, r: AllocRecord): string {
    Sprintf(fmt, RowValues(r)) + "," + PcList(PrintedPcs(r))
  }

  function RowTexts(fmt: RowFormat, recs: seq<AllocRecord>): (texts: seq<string>)
    ensures |texts| == |recs|
  {
    seq(|recs|, i requires 0 <= i < |recs| => RowText(fmt, recs[i]))
  }

  function CsvText(recs: seq<AllocRecord>): string {
    HEADER + "\n" + Terminated(RowTexts(ROW, recs), '\n')
  }

  // ----- reading -----

  function ParsePc(token: string): Option<u64> {
    var vals := Sscanf(token, PC);
    if |vals| == 1 && vals[0].u != 0 then Some(vals[0].u) else None
  }

  /** Applies `f` to each element and keeps the successes. */
  function Collect<A, B>(f: A -> Option<B>, xs: seq<A>): seq<B> {
    if xs == [] then []
    else
      var init := Collect(f, xs[..|xs| - 1]);
      match f(xs[|xs| - 1])
      case Some(y) => init + [y]
      case None => init
  }

  /** The position just after the `n`-th comma, if there are that many. */
  function AfterComma(s: string, n: nat): (r: Option<nat>)
    ensures n > 0 && r.Some? ==> 0 < r.value <= |s|
  {
    AfterCommaFrom(s, n, 0)
  }

  function AfterCommaFrom(s: string, n: nat, i: nat): (r: Option<nat>)
    requires i <= |s|
    ensures r.Some? ==> i <= r.value <= |s| && (n > 0 ==> i < r.value)
    decreases |s| - i
  {
    if n == 0 then Some(i)
    else if i == |s| then None
    else AfterCommaFrom(s, if s[i] == ',' then n - 1 else n, i + 1)
  }

  function TrailingPcs(line: string): seq<u64> {
    match AfterComma(line, 9)
    case None => []
    case Some(pos) => if pos < |line| then Collect(ParsePc, Lines(line[pos..], ';')) else []
  }

  /** A line with fewer than five readable fields is skipped; later missing fields stay zero. */
  function ParseLine(fmt: RowFormat, line: string): Option<AllocEntry> {
    var vals := Sscanf(line, fmt);
    if |vals| < 5 then None else Some(EntryFrom(fmt, vals, if |vals| >= 9 then TrailingPcs(line) else []))
  }

  function EntryFrom(fmt: RowFormat, vals: seq<Value>, pcs: seq<u64>): AllocEntry
    requires |vals| >= 5 && AllFit(fmt, vals)
  {
    AllocEntry(
      vals[0].u, vals[1].u,
      if |vals| >= 8 then vals[7].i else 0,
      if |vals| >= 7 then vals[6].u else if |vals| >= 6 then vals[5].u else 0,
      vals[2].u, vals[3].u, vals[4].s == "1",
      if |vals| >= 9 then vals[8].i else 0,
      pcs)
  }

  /** The first line is the header, whatever it says. */
  function ParseCsv(text: string): seq<AllocEntry> {
    var lines := Lines(text, '\n');
    if lines == [] then [] else Collect(line => ParseLine(ROW, line), lines[1..])
  }

  // ----- round trip -----

  function NonZero(pcs: seq<u64>): (r: seq<u64>)
    ensures 0 !in r
  {
    if pcs == [] then []
    else
      var init, last := NonZero(pcs[..|pcs| - 1]), pcs[|pcs| - 1];
      if last != 0 then init + [last] else init
  }

  /** What survives the trip: the second timestamp overwrites the first, and zero PCs are dropped. */
  function EntryOf(r: AllocRecord): AllocEntry {
    AllocEntry(r.addr, r.size, r.stackId, r.timestampFree, r.pid, r.tid, r.live, r.stackDepth, NonZero(PrintedPcs(r)))
  }

  lemma PcTextRoundTrip(pc: u64)
    ensures ParsePc(PcText(pc)) == if pc == 0 then None else Some(pc)
    ensures ';' !in PcText(pc) && '\n' !in PcText(pc) && PcText(pc) != []
  {
    ScanUndoesPrint(PC, [U(pc)], "");
    assert PcText(pc) + "" == PcText(pc);
    PcTextIsDigits(pc);
  }

  lemma PcTextIsDigits(pc: u64)
    ensures PcText(pc) == "0x" + Digits(pc, Hexadecimal)
  {
    assert Sprintf(PC[1..], [U(pc)][1..]) == "";
  }

  lemma {:induction false} ParsePcsRoundTrip(pcs: seq<u64>)
    ensures Collect(ParsePc, PcTexts(pcs)) == NonZero(pcs)
  {
    if pcs != [] {
      var init := pcs[..|pcs| - 1];
      PcTextRoundTrip(pcs[|pcs| - 1]);
      ParsePcsRoundTrip(init);
      PcTextsLast(pcs);
      assert PcTexts(pcs)[..|pcs| - 1] == PcTexts(init);
    }
  }

  lemma PcTextsArePlain(pcs: seq<u64>, c: char)
    requires c == ';' || c == '\n'
    ensures forall i :: 0 <= i < |pcs| ==> c !in PcTexts(pcs)[i]
  {
    forall i | 0 <= i < |pcs| ensures c !in PcTexts(pcs)[i] { PcTextRoundTrip(pcs[i]); }
  }

  lemma PcTextsLast(pcs: seq<u64>)
    requires pcs != []
    ensures PcTexts(pcs) == PcTexts(pcs[..|pcs| - 1]) + [PcText(pcs[|pcs| - 1])]
  {
  }

  lemma PcListLines(pcs: seq<u64>)
    ensures Lines(PcList(pcs), ';') == PcTexts(pcs)
  {
    if pcs != [] {
      var init := pcs[..|pcs| - 1];
      PcTextsArePlain(init, ';');
      PcTextRoundTrip(pcs[|pcs| - 1]);
      LinesOfJoined(PcTexts(init), PcText(pcs[|pcs| - 1]), ';');
      PcTextsLast(pcs);
    }
  }

  lemma {:induction false} AfterCommaSkips(s: string, i: nat, k: nat, tail: string)
    requires i <= |s| && Commas(s[i..]) == k
    ensures AfterCommaFrom(s + "," + tail, k + 1, i) == Some(|s| + 1)
    decreases |s| - i
  {
    var t := s + "," + tail;
    if i == |s| {
      assert s[i..] == [];
      assert t[i] == ',';
    } else {
      assert s[i..] == [s[i]] + s[i + 1..];
      CommasConcat([s[i]], s[i + 1..]);
      assert [s[i]][..0] == [];
      AfterCommaSkips(s, i + 1, Commas(s[i + 1..]), tail);
    }
  }

  lemma TrailingPcsRoundTrip(fields: string, pcs: seq<u64>)
    requires Commas(fields) == 8
    ensures TrailingPcs(fields + "," + PcList(pcs)) == NonZero(pcs)
  {
    TrailingText(fields, PcList(pcs));
    PcListLines(pcs);
    ParsePcsRoundTrip(pcs);
  }

  /** The text after the ninth comma is what was written there. */
  lemma TrailingText(fields: string, tail: string)
    requires Commas(fields) == 8
    ensures TrailingPcs(fields + "," + tail) == Collect(ParsePc, Lines(tail, ';'))
  {
    assert fields[0..] == fields;
    AfterCommaSkips(fields, 0, 8, tail);
    assert (fields + "," + tail)[|fields| + 1..] == tail;
  }

  lemma RowRoundTrip(fmt: RowFormat, r: AllocRecord)
    ensures ParseLine(fmt, RowText(fmt, r)) == Some(EntryOf(r))
  {
    var vals, pcs := RowValues(r), PrintedPcs(r);
    var fields, rest := Sprintf(fmt, vals), "," + PcList(pcs);
    ScanUndoesPrint(fmt, vals, rest);
    assert fields + rest == RowText(fmt, r);
    PrintedCommas(fmt, vals);
    TrailingPcsRoundTrip(fields, pcs);
  }

  lemma {:induction false} TerminatedAvoids(pieces: seq<string>, d: char, c: char)
    requires c != d && forall i :: 0 <= i < |pieces| ==> c !in pieces[i]
    ensures c !in Terminated(pieces, d)
  {
    if pieces != [] {
      TerminatedAvoids(pieces[1..], d, c);
    }
  }

  lemma RowHasNoNewline(fmt: RowFormat, r: AllocRecord)
    ensures '\n' !in RowText(fmt, r)
  {
    PrintedHasNoNewline(fmt, RowValues(r));
    var pcs := PrintedPcs(r);
    if pcs != [] {
      PcTextsArePlain(pcs[..|pcs| - 1], '\n');
      PcTextRoundTrip(pcs[|pcs| - 1]);
      TerminatedAvoids(PcTexts(pcs[..|pcs| - 1]), ';', '\n');
    }
  }

  lemma {:induction false} CollectAll<A, B>(f: A -> Option<B>, xs: seq<A>, ys: seq<B>)
    requires |xs| == |ys| && forall i :: 0 <= i < |xs| ==> f(xs[i]) == Some(ys[i])
    ensures Collect(f, xs) == ys
  {
    if xs != [] {
      var n := |xs| - 1;
      CollectAll(f, xs[..n], ys[..n]);
      assert ys == ys[..n] + [ys[n]];
    }
  }

  function EntriesOf(recs: seq<AllocRecord>): (es: seq<AllocEntry>)
    ensures |es| == |recs|
  {
    seq(|recs|, i requires 0 <= i < |recs| => EntryOf(recs[i]))
  }

  lemma HeaderIsOneLine()
    ensures '\n' !in HEADER
  {
  }

  lemma LinesOfCsv(fmt: RowFormat, recs: seq<AllocRecord>)
    ensures Lines(Terminated(RowTexts(fmt, recs), '\n'), '\n') == RowTexts(fmt, recs)
  {
    var texts := RowTexts(fmt, recs);
    forall i | 0 <= i < |texts| ensures '\n' !in texts[i] { RowHasNoNewline(fmt, recs[i]); }
    LinesOfTerminated(texts, '\n', "");
    assert Terminated(texts, '\n') + "" == Terminated(texts, '\n');
    assert Lines("", '\n') == [];
  }

  /** Reading back what was written gives one entry per record, in order: address, size, pid, tid, live
      flag, stack id and depth as written, the time of the free as the timestamp, and the nonzero PCs. */
  lemma CsvRoundTrip(recs: seq<AllocRecord>)
    ensures ParseCsv(CsvText(recs)) == EntriesOf(recs)
  {
    var texts := RowTexts(ROW, recs);
    HeaderIsOneLine();
    FirstLine(HEADER, '\n', Terminated(texts, '\n'));
    assert HEADER + (['\n'] + Terminated(texts, '\n')) == CsvText(recs);
    LinesOfCsv(ROW, recs);
    assert Lines(CsvText(recs), '\n')[1..] == texts;
    var parse := (line: string) => ParseLine(ROW, line);
    forall i | 0 <= i < |recs| ensures parse(texts[i]) == Some(EntriesOf(recs)[i]) { RowRoundTrip(ROW, recs[i]); }
    CollectAll(parse, texts, EntriesOf(recs));
    assert ParseCsv(CsvText(recs)) == Collect(parse, texts);
  }

  /** What the round trip means, column by column: the time of the free stands for both timestamps, and of the
      printed PCs, as many as the depth says but at most 64, the nonzero ones remain. */
  lemma ColumnsRoundTrip(recs: seq<AllocRecord>, i: nat)
    requires i < |recs|
    ensures |ParseCsv(CsvText(recs))| == |recs|
    ensures var e, r := ParseCsv(CsvText(recs))[i], recs[i];
      && e.addr == r.addr && e.size == r.size && e.pid == r.pid && e.tid == r.tid && e.live == r.live
      && e.timestamp == r.timestampFree && e.stackId == r.stackId && e.stackDepth == r.stackDepth
      && var printed := if r.stackDepth <= 0 then 0 else if r.stackDepth < 64 then r.stackDepth else 64;
         e.stackPcs == NonZero(r.stackPcs[..printed])
  {
    CsvRoundTrip(recs);
    PrintedPcsAre(recs[i]);
    var printed := |PrintedPcs(recs[i])|;
    assert PrintedPcs(recs[i]) == recs[i].stackPcs[..printed];
  }

  lemma NonZeroLast(pcs: seq<u64>, pc: u64)
    ensures NonZero(pcs + [pc]) == NonZero(pcs) + if pc == 0 then [] else [pc]
  {
    assert (pcs + [pc])[..|pcs|] == pcs;
  }

  lemma Associates(a: seq<u64>, b: seq<u64>, c: seq<u64>)
    ensures a + b + c == a + (b + c)
  {
  }

  /** Dropping zeros is a filter. */
  lemma {:induction false} NonZeroOfParts(xs: seq<u64>, ys: seq<u64>)
    ensures NonZero(xs + ys) == NonZero(xs) + NonZero(ys)
  {
    if ys == [] {
      assert xs + ys == xs;
    } else {
      var init, y := ys[..|ys| - 1], ys[|ys| - 1];
      var last := if y == 0 then [] else [y];
      assert ys == init + [y];
      NonZeroOfParts(xs, init);
      Associates(xs, init, [y]);
      NonZeroLast(xs + init, y);
      NonZeroLast(init, y);
      Associates(NonZero(xs), NonZero(init), last);
    }
  }

  lemma BrokenScan(fmt: RowFormat, vals: seq<Value>, k: nat)
    requires |vals| == 9 && AllFit(fmt, vals) && k < 9
    ensures AllFit(fmt[..k], vals[..k])
    ensures Sscanf(Sprintf(fmt[..k], vals[..k]), fmt) == vals[..k]
  {
    ScanStopsAtEnd(fmt[..k], vals[..k], fmt[k..]);
    assert fmt[..k] + fmt[k..] == fmt;
  }

  /** A line that breaks off after `k` columns is skipped if `k` is below five; otherwise it is an entry without the
      missing columns. */
  lemma BrokenLine(fmt: RowFormat, r: AllocRecord, k: nat)
    requires k < 9
    ensures AllFit(fmt[..k], RowValues(r)[..k])
    ensures match ParseLine(fmt, Sprintf(fmt[..k], RowValues(r)[..k]))
      case None => k < 5
      case Some(e) =>
        && k >= 5 && e.addr == r.addr && e.size == r.size && e.pid == r.pid && e.tid == r.tid && e.live == r.live
        && e.timestamp == (if k >= 7 then r.timestampFree else if k == 6 then r.timestampAlloc else 0)
        && e.stackId == (if k == 8 then r.stackId else 0) && e.stackDepth == 0 && e.stackPcs == []
  {
    BrokenScan(fmt, RowValues(r), k);
    assert forall i :: 0 <= i < k ==> RowValues(r)[..k][i] == RowValues(r)[i];
  }

  function Concat(texts: seq<string>): string {
    if texts == [] then "" else texts[0] + Concat(texts[1..])
  }

  lemma {:induction false} PrintedColumns(fmt: seq<Field>, vals: seq<Value>, texts: seq<string>)
    requires AllFit(fmt, vals) && |vals| == |fmt| == |texts|
    requires forall i :: 0 <= i < |fmt| ==> fmt[i].prefix + Print(fmt[i].conv, vals[i]) == texts[i]
    ensures Sprintf(fmt, vals) == Concat(texts)
  {
    if fmt != [] {
      PrintedColumns(fmt[1..], vals[1..], texts[1..]);
    }
  }

  lemma PcsExample()
    ensures PcList([0xa, 0x10]) == "0xa;0x10"
  {
    PcTextIsDigits(0xa);
    PcTextIsDigits(0x10);
    assert Digits(0xa, Hexadecimal) == "a" && Digits(0x10, Hexadecimal) == "10";
    assert PcText(0xa) == "0xa" && PcText(0x10) == "0x10";
    var first: seq<u64> := [0xa, 0x10][..1];
    assert first == [0xa] && PcTexts(first) == [PcText(0xa)];
    assert [PcText(0xa)][1..] == [] && Terminated([PcText(0xa)], ';') == "0xa;";
  }

  const EXAMPLE: seq<string> := ["0x1f", ",24", ",7", ",8", ",1", ",5", ",6", ",-1", ",2"]

  lemma ColumnTexts(i: nat)
    requires i < 9
    ensures var vals := [U(0x1f), U(24), U(7), U(8), S("1"), U(5), U(6), I(-1), I(2)];
      Fits(ROW[i].conv, vals[i]) && ROW[i].prefix + Print(ROW[i].conv, vals[i]) == EXAMPLE[i]
  {
    if i < 2 {
      assert Digits(0x1f, Hexadecimal) == "1f" && Digits(24, Decimal) == "24";
    }
  }

  lemma ExampleColumns(fmt: seq<Field>, vals: seq<Value>, texts: seq<string>)
    requires fmt == ROW && texts == EXAMPLE
    requires vals == [U(0x1f), U(24), U(7), U(8), S("1"), U(5), U(6), I(-1), I(2)]
    ensures AllFit(fmt, vals) && Sprintf(fmt, vals) == Concat(texts)
  {
    forall i | 0 <= i < 9
      ensures Fits(fmt[i].conv, vals[i]) && fmt[i].prefix + Print(fmt[i].conv, vals[i]) == texts[i]
    {
      ColumnTexts(i);
    }
    PrintedColumns(fmt, vals, texts);
  }

  lemma RowOfParts(fmt: RowFormat, r: AllocRecord, vals: seq<Value>, texts: seq<string>, pcs: seq<u64>, tail: string)
    requires vals == RowValues(r) && pcs == PrintedPcs(r)
    requires AllFit(fmt, vals) && Sprintf(fmt, vals) == Concat(texts) && PcList(pcs) == tail
    ensures RowText(fmt, r) == Concat(texts) + "," + tail
  {
  }

  predicate IsExample(r: AllocRecord) {
    && r.addr == 0x1f && r.size == 24 && r.pid == 7 && r.tid == 8 && r.live && r.timestampAlloc == 5
    && r.timestampFree == 6 && r.stackId == -1 && r.stackDepth == 2 && r.stackPcs[0] == 0xa && r.stackPcs[1] == 0x10
  }

  lemma ExampleParts(r: AllocRecord)
    requires IsExample(r)
    ensures RowValues(r) == [U(0x1f), U(24), U(7), U(8), S("1"), U(5), U(6), I(-1), I(2)]
    ensures PrintedPcs(r) == [0xa, 0x10]
  {
  }

  /** An example of a row, column by column. */
  lemma RowExample(fmt: RowFormat, r: AllocRecord, texts: seq<string>)
    requires fmt == ROW && IsExample(r)
    requires texts == EXAMPLE
    ensures RowText(fmt, r) == Concat(texts) + "," + "0xa;0x10"
  {
    ExampleParts(r);
    ExampleColumns(fmt, RowValues(r), texts);
    PcsExample();
    RowOfParts(fmt, r, RowValues(r), texts, PrintedPcs(r), "0xa;0x10");
  }

  // ----- the two programs -----

  lemma PcListAppend(pcs: seq<u64>, pc: u64)
    ensures PcList(pcs + [pc]) == PcList(pcs) + (if pcs == [] then "" else ";") + PcText(pc)
  {
    assert (pcs + [pc])[..|pcs|] == pcs;
    if pcs != [] {
      var init, last := pcs[..|pcs| - 1], pcs[|pcs| - 1];
      TerminatedAppend(PcTexts(init), PcText(last), ';');
      assert PcTexts(pcs) == PcTexts(init) + [PcText(last)];
    }
  }

  lemma PcListOneMore(pcs: seq<u64>, j: nat)
    requires j < |pcs|
    ensures PcList(pcs[..j + 1]) == PcList(pcs[..j]) + (if j == 0 then "" else ";") + PcText(pcs[j])
  {
    assert pcs[..j + 1] == pcs[..j] + [pcs[j]];
    PcListAppend(pcs[..j], pcs[j]);
  }

  lemma PrintedPcsAre(r: AllocRecord)
    ensures |PrintedPcs(r)| ==
      if r.stackDepth <= 0 then 0 else if r.stackDepth < COLLECTOR_SLOTS then r.stackDepth else COLLECTOR_SLOTS
    ensures forall j :: 0 <= j < |PrintedPcs(r)| ==> PrintedPcs(r)[j] == r.stackPcs[j]
  {
  }

  /** The inner loop of the printer: the PCs of one row. */
  method WritePcs(r: AllocRecord) returns (out: string)
    ensures out == PcList(PrintedPcs(r))
  {
    out := "";
    ghost var pcs := PrintedPcs(r);
    PrintedPcsAre(r);
    var j := 0;
    while j < r.stackDepth && j < COLLECTOR_SLOTS
      invariant 0 <= j <= |pcs|
      invariant out == PcList(pcs[..j])
    {
      PcListOneMore(pcs, j);
      if j > 0 { out := out + ";"; }
      out := out + PcText(r.stackPcs[j]);
      j := j + 1;
    }
    assert pcs[..j] == pcs;
  }

  method WriteRow(fmt: RowFormat, r: AllocRecord) returns (row: string)
    ensures row == RowText(fmt, r)
  {
    var pcs := WritePcs(r);
    row := Sprintf(fmt, RowValues(r)) + "," + pcs;
  }

  method WriteCsvBatch(table: Collector.AllocTable) returns (out: string)
    requires table.Valid()
    ensures out == CsvText(table.Contents())
  {
    ghost var recs := table.Contents();
    var rows := WriteRows(table.records, table.count);
    out := HEADER + "\n" + rows;
  }

  method WriteRows(records: array<AllocRecord>, count: nat) returns (out: string)
    requires count <= records.Length
    ensures out == Terminated(RowTexts(ROW, records[..count]), '\n')
  {
    var fmt := ROW;
    ghost var texts := RowTexts(fmt, records[..count]);
    out := "";
    var i := 0;
    while i < count
      invariant 0 <= i <= count
      invariant out == Terminated(texts[..i], '\n')
    {
      TerminatedPrefix(texts, i, '\n');
      var row := WriteRow(fmt, records[i]);
      assert row == texts[i];
      out := out + row + "\n";
      i := i + 1;
    }
    assert texts[..i] == texts;
  }

  /** A `getline` loop that keeps what `f` makes of each line. */
  method CollectLines<B>(f: string -> Option<B>, s: string, d: char) returns (r: seq<B>)
    ensures r == Collect(f, Lines(s, d))
  {
    r := [];
    var rest := s;
    ghost var all, done := Lines(s, d), [];
    ghost var todo := all;
    while true
      invariant todo == Lines(rest, d) && all == done + todo
      invariant r == Collect(f, done)
      decreases |rest|
    {
      var ok, line, rest' := GetLine(rest, d);
      if !ok { break; }
      ghost var todo' := Lines(rest', d);
      OneMoreLine(f, done, line, todo');
      var y := f(line);
      if y.Some? { r := r + [y.value]; }
      done, todo, rest := done + [line], todo', rest';
    }
    assert done + [] == done;
  }

  lemma OneMoreLine<A, B>(f: A -> Option<B>, done: seq<A>, x: A, todo: seq<A>)
    ensures done + ([x] + todo) == (done + [x]) + todo
    ensures Collect(f, done + [x]) == match f(x) case Some(y) => Collect(f, done) + [y] case None => Collect(f, done)
  {
  }

  /** The position after the ninth comma, 0 if there are fewer. */
  method FindNinthComma(line: string) returns (pos: nat)
    ensures pos == match AfterComma(line, 9) case None => 0 case Some(p) => p
  {
    pos := 0;
    var commaCount, i := 0, 0;
    while i < |line|
      invariant 0 <= i <= |line| && 0 <= commaCount < 9
      invariant AfterComma(line, 9) == AfterCommaFrom(line, 9 - commaCount, i)
    {
      if line[i] == ',' {
        commaCount := commaCount + 1;
        if commaCount == 9 {
          return i + 1;
        }
      }
      i := i + 1;
    }
  }

  /** Finds the ninth comma, then splits what follows at semicolons. */
  method ReadTrailingPcs(line: string) returns (pcs: seq<u64>)
    ensures pcs == TrailingPcs(line)
  {
    var pos := FindNinthComma(line);
    pcs := [];
    if pos > 0 && pos < |line| {
      pcs := CollectLines(ParsePc, line[pos..], ';');
    }
  }

  method ReadLine(line: string) returns (entry: Option<AllocEntry>)
    ensures entry == ParseLine(ROW, line)
  {
    var fmt := ROW;
    var vals := Sscanf(line, fmt);
    if |vals| < 5 { return None; }
    var pcs := [];
    if |vals| >= 9 { pcs := ReadTrailingPcs(line); }
    return Some(EntryFrom(fmt, vals, pcs));
  }

  method LoadCsv(text: string) returns (allocs: seq<AllocEntry>)
    ensures allocs == ParseCsv(text)
  {
    var ok, header, rest := GetLine(text, '\n');
    ghost var parse := (line: string) => ParseLine(ROW, line);
    ghost var all, done := Lines(rest, '\n'), [];
    ghost var todo := all;
    assert ok ==> ([header] + all)[1..] == all;
    assert !ok ==> all == [];
    assert ParseCsv(text) == Collect(parse, all);
    allocs := [];
    while true
      invariant todo == Lines(rest, '\n') && all == done + todo
      invariant allocs == Collect(parse, done)
      decreases |rest|
    {
      var more, line, rest' := GetLine(rest, '\n');
      if !more { break; }
      ghost var todo' := Lines(rest', '\n');
      OneMoreLine(parse, done, line, todo');
      var entry := ReadLine(line);
      assert entry == parse(line);
      if entry.Some? { allocs := allocs + [entry.value]; }
      done, todo, rest := done + [line], todo', rest';
    }
    assert done + [] == done;
  }
}
