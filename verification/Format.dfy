/** The part of `printf` and `scanf` that the CSV bridge uses, as a printer and a scanner driven by one
    format. A conversion that fails stops the scan; numbers too large saturate as `strtoul` and `strtol`
    do, and 32-bit conversions keep the low half. */
module Format {
  import opened Words

  datatype Conversion =
    | Hex            // %lx
    | Dec            // %lu
    | Dec32          // %u
    | Word           // %s when printing, %7[^,] when scanning
    | SDec           // %ld
    | SDec32         // %d

  /** A conversion and the ordinary characters in front of it. */
  datatype Field = Field(prefix: string, conv: Conversion)

  datatype Value = U(u: u64) | I(i: i64) | S(s: string)

  /** `v` is a value that conversion `d` prints and yields. */
  predicate Fits(d: Conversion, v: Value) {
    match d
    case Hex => v.U?
    case Dec => v.U?
    case Dec32 => v.U? && v.u < TWO32
    case Word => v.S? && 1 <= |v.s| <= 7 && ',' !in v.s
    case SDec => v.I?
    case SDec32 => v.I? && -0x8000_0000 <= v.i < 0x8000_0000
  }

  // ----- digits -----

  datatype Radix = Decimal | Hexadecimal {
    const Base: nat := if Decimal? then 10 else 16
    function Div(n: nat): nat { if Decimal? then n / 10 else n / 16 }
    function Mod(n: nat): nat { if Decimal? then n % 10 else n % 16 }
    function Times(n: nat): nat { if Decimal? then n * 10 else n * 16 }
  }

  function DigitValue(c: char): int {
    if '0' <= c <= '9' then c as int - '0' as int
    else if 'a' <= c <= 'f' then c as int - 'a' as int + 10
    else if 'A' <= c <= 'F' then c as int - 'A' as int + 10
    else -1
  }

  function DigitChar(d: nat): (c: char)
    requires d < 16
    ensures DigitValue(c) == d
  {
    if d < 10 then ('0' as int + d) as char else ('a' as int + d - 10) as char
  }

  predicate IsDigit(c: char, base: Radix) {
    0 <= DigitValue(c) < base.Base
  }

  predicate AllDigits(s: string, base: Radix) {
    forall i :: 0 <= i < |s| ==> IsDigit(s[i], base)
  }

  function Digits(n: nat, base: Radix): (s: string)
    ensures s != [] && AllDigits(s, base)
  {
    if n < base.Base then [DigitChar(n)] else Digits(base.Div(n), base) + [DigitChar(base.Mod(n))]
  }

  function NumberOf(s: string, base: Radix): nat
    requires AllDigits(s, base)
  {
    if s == [] then 0 else base.Times(NumberOf(s[..|s| - 1], base)) + DigitValue(s[|s| - 1])
  }

  /** Examples, one per radix. */
  lemma DigitsExamples()
    ensures Digits(0x3a1f, Hexadecimal) == "3a1f" && Digits(9075, Decimal) == "9075"
  {
    assert Digits(0x3a, Hexadecimal) == "3a" && Digits(0x3a1, Hexadecimal) == "3a1";
    assert Digits(90, Decimal) == "90" && Digits(907, Decimal) == "907";
  }

  lemma {:induction false} NumberOfDigits(n: nat, base: Radix)
    ensures NumberOf(Digits(n, base), base) == n
  {
    var s := Digits(n, base);
    if n < base.Base {
      assert s[..|s| - 1] == [];
    } else {
      NumberOfDigits(base.Div(n), base);
      assert s[..|s| - 1] == Digits(base.Div(n), base);
    }
  }

  /** Length of the longest prefix of digits. */
  function DigitPrefix(s: string, base: Radix): (n: nat)
    ensures n <= |s| && AllDigits(s[..n], base)
    ensures n < |s| ==> !IsDigit(s[n], base)
  {
    if s == [] || !IsDigit(s[0], base) then 0 else 1 + DigitPrefix(s[1..], base)
  }

  lemma {:induction false} DigitPrefixExact(ds: string, rest: string, base: Radix)
    requires AllDigits(ds, base) && (rest == [] || !IsDigit(rest[0], base))
    ensures DigitPrefix(ds + rest, base) == |ds|
  {
    if ds != [] {
      DigitPrefixExact(ds[1..], rest, base);
      assert (ds + rest)[1..] == ds[1..] + rest;
    }
  }

  // ----- printing -----

  function Print(d: Conversion, v: Value): string
    requires Fits(d, v)
  {
    match d
    case Hex => Digits(v.u, Hexadecimal)
    case Dec => Digits(v.u, Decimal)
    case Dec32 => Digits(v.u, Decimal)
    case Word => v.s
    case SDec => if v.i < 0 then "-" + Digits(0 - v.i, Decimal) else Digits(v.i, Decimal)
    case SDec32 => if v.i < 0 then "-" + Digits(0 - v.i, Decimal) else Digits(v.i, Decimal)
  }

  predicate AllFit(fmt: seq<Field>, vals: seq<Value>) {
    |vals| <= |fmt| && forall i :: 0 <= i < |vals| ==> Fits(fmt[i].conv, vals[i])
  }

  function Sprintf(fmt: seq<Field>, vals: seq<Value>): string
    requires AllFit(fmt, vals) && |vals| == |fmt|
  {
    if fmt == [] then ""
    else fmt[0].prefix + Print(fmt[0].conv, vals[0]) + Sprintf(fmt[1..], vals[1..])
  }

  // ----- scanning -----

  predicate IsSpace(c: char) {
    c == ' ' || ('\t' <= c <= '\r')
  }

  function SkipSpace(s: string): string {
    if s != [] && IsSpace(s[0]) then SkipSpace(s[1..]) else s
  }

  function SkipSign(t: string): string {
    if t != [] && (t[0] == '-' || t[0] == '+') then t[1..] else t
  }

  function SkipHexMark(t: string, base: Radix): string {
    if base.Hexadecimal? && |t| >= 2 && t[0] == '0' && (t[1] == 'x' || t[1] == 'X') then t[2..] else t
  }

  /** Optional white space, sign and (for base 16) `0x`, then digits: sign, magnitude and what is left. */
  function ScanNumber(s: string, base: Radix): Option<(bool, nat, string)> {
    var t := SkipSpace(s);
    var digits := SkipHexMark(SkipSign(t), base);
    var n := DigitPrefix(digits, base);
    if n == 0 then None else Some((t != [] && t[0] == '-', NumberOf(digits[..n], base), digits[n..]))
  }

  function Unsigned(neg: bool, m: nat): u64 {
    if m >= TWO64 then TWO64 - 1 else if neg then Wrap64(0 - m) else m
  }

  function SignedValue(neg: bool, m: nat): i64 {
    if neg then (if m > TWO63 then -TWO63 else 0 - m) else (if m >= TWO63 then TWO63 - 1 else m)
  }

  /** Length of the longest prefix without a comma, at most `max`. */
  function WordPrefix(s: string, max: nat): (n: nat)
    ensures n <= |s| && n <= max && ',' !in s[..n]
    ensures n < |s| && n < max ==> s[n] == ','
  {
    if s == [] || max == 0 || s[0] == ',' then 0 else 1 + WordPrefix(s[1..], max - 1)
  }

  function Scan(d: Conversion, s: string): (r: Option<(Value, string)>)
    ensures r.Some? ==> Fits(d, r.value.0)
  {
    if d.Word? then
      var n := WordPrefix(s, 7);
      if n == 0 then None else Some((S(s[..n]), s[n..]))
    else
      match ScanNumber(s, if d.Hex? then Hexadecimal else Decimal)
      case None => None
      case Some((neg, m, rest)) =>
        var v := match d
          case Hex => U(Unsigned(neg, m))
          case Dec => U(Unsigned(neg, m))
          case Dec32 => U(Wrap32(Unsigned(neg, m)))
          case SDec => I(SignedValue(neg, m))
          case SDec32 => I(Signed32(Wrap32(SignedValue(neg, m))));
        Some((v, rest))
  }

  /** The values of the conversions that succeeded, in order. */
  function Sscanf(s: string, fmt: seq<Field>): (vals: seq<Value>)
    ensures AllFit(fmt, vals)
    decreases |fmt|
  {
    if fmt == [] || !(fmt[0].prefix <= s) then []
    else
      match Scan(fmt[0].conv, s[|fmt[0].prefix|..])
      case None => []
      case Some((v, rest)) => [v] + Sscanf(rest, fmt[1..])
  }

  // ----- scanning undoes printing -----

  predicate StopsAt(rest: string) {
    rest == [] || rest[0] == ','
  }

  /** Every field but the first starts with a comma. */
  predicate Separated(fmt: seq<Field>) {
    forall i :: 0 < i < |fmt| ==> fmt[i].prefix == ","
  }

  /** Digits followed by a stop are not mistaken for a hexadecimal mark, a sign or white space. */
  lemma DigitsAreNotSkipped(ds: string, rest: string, base: Radix)
    requires ds != [] && AllDigits(ds, base) && StopsAt(rest)
    ensures SkipHexMark(ds + rest, base) == ds + rest
  {
  }

  lemma SignIsSkipped(sign: string, t: string, base: Radix)
    requires (sign == "" || sign == "-") && t != [] && IsDigit(t[0], base)
    ensures SkipSpace(sign + t) == sign + t && SkipSign(sign + t) == t
    ensures (sign + t)[0] == '-' <==> sign == "-"
  {
  }

  lemma ScanDigits(sign: string, n: nat, base: Radix, rest: string)
    requires (sign == "" || sign == "-") && StopsAt(rest)
    ensures ScanNumber(sign + Digits(n, base) + rest, base) == Some((sign == "-", n, rest))
  {
    NumberOfDigits(n, base);
    ScanDigitText(sign, Digits(n, base), base, rest);
    ConcatAssociates(sign, Digits(n, base), rest);
  }

  lemma ConcatAssociates(a: string, b: string, c: string)
    ensures a + b + c == a + (b + c)
  {
  }

  lemma ScanDigitText(sign: string, ds: string, base: Radix, rest: string)
    requires (sign == "" || sign == "-") && StopsAt(rest) && ds != [] && AllDigits(ds, base)
    ensures ScanNumber(sign + (ds + rest), base) == Some((sign == "-", NumberOf(ds, base), rest))
  {
    var t := ds + rest;
    assert t[0] == ds[0];
    SignIsSkipped(sign, t, base);
    DigitsAreNotSkipped(ds, rest, base);
    DigitPrefixExact(ds, rest, base);
    assert t[..|ds|] == ds && t[|ds|..] == rest;
  }

  lemma {:induction false} WordPrefixExact(word: string, rest: string, max: nat)
    requires ',' !in word && |word| <= max && StopsAt(rest)
    ensures WordPrefix(word + rest, max) == |word|
  {
    if word != [] {
      WordPrefixExact(word[1..], rest, max - 1);
      assert (word + rest)[1..] == word[1..] + rest;
    }
  }

  lemma ScanPlain(n: nat, base: Radix, rest: string)
    requires StopsAt(rest)
    ensures ScanNumber(Digits(n, base) + rest, base) == Some((false, n, rest))
  {
    ScanDigits("", n, base, rest);
    assert "" + Digits(n, base) == Digits(n, base);
  }

  lemma ScanSigned(i: i64, rest: string)
    requires StopsAt(rest)
    ensures ScanNumber(Print(SDec, I(i)) + rest, Decimal) == Some((i < 0, if i < 0 then 0 - i else i, rest))
  {
    var sign, m := if i < 0 then "-" else "", if i < 0 then 0 - i else i;
    ScanDigits(sign, m, Decimal, rest);
    assert sign + Digits(m, Decimal) == Print(SDec, I(i));
  }

  lemma NarrowingIsIdentity(i: i64)
    ensures SignedValue(i < 0, if i < 0 then 0 - i else i) == i
    ensures -0x8000_0000 <= i < 0x8000_0000 ==> Signed32(Wrap32(i)) == i
  {
  }

  lemma ScanPrinted(d: Conversion, v: Value, rest: string)
    requires Fits(d, v) && StopsAt(rest)
    ensures Scan(d, Print(d, v) + rest) == Some((v, rest))
  {
    if d.Word? {
      WordPrefixExact(v.s, rest, 7);
    } else if v.U? {
      ScanPlain(v.u, if d.Hex? then Hexadecimal else Decimal, rest);
    } else {
      assert Print(d, v) == Print(SDec, v);
      ScanSigned(v.i, rest);
      NarrowingIsIdentity(v.i);
    }
  }

  lemma ScanField(f: Field, v: Value, tail: string, fmt: seq<Field>)
    requires Fits(f.conv, v) && StopsAt(tail)
    ensures Sscanf(f.prefix + Print(f.conv, v) + tail, [f] + fmt) == [v] + Sscanf(tail, fmt)
  {
    ScanPrinted(f.conv, v, tail);
    ConcatAssociates(f.prefix, Print(f.conv, v), tail);
    DropPrefix(f.prefix, Print(f.conv, v) + tail);
    assert ([f] + fmt)[1..] == fmt;
  }

  lemma {:induction false} SpacesAreSkipped(spaces: string, t: string)
    requires (forall c <- spaces :: c == ' ' || '\t' <= c <= '\r') && t != [] && t[0] > ' '
    ensures SkipSpace(spaces + t) == t
  {
    if spaces == [] {
      assert spaces + t == t;
    } else {
      assert spaces[0] in spaces && forall i :: 0 <= i < |spaces[1..]| ==> spaces[1..][i] in spaces;
      SpacesAreSkipped(spaces[1..], t);
      assert (spaces + t)[1..] == spaces[1..] + t;
    }
  }

  /** Optional white space, an optional sign, and digits up to a comma or the end make a number. */
  lemma ScanLoose(spaces: string, sign: string, ds: string, base: Radix, rest: string)
    requires (forall c <- spaces :: c == ' ' || '\t' <= c <= '\r') && sign in {"", "-", "+"}
    requires ds != [] && AllDigits(ds, base) && StopsAt(rest)
    ensures ScanNumber(spaces + (sign + (ds + rest)), base) == Some((sign == "-", NumberOf(ds, base), rest))
  {
    var t := sign + (ds + rest);
    assert IsDigit(ds[0], base) && (ds + rest)[0] == ds[0];
    SpacesAreSkipped(spaces, t);
    assert SkipSign(t) == ds + rest;
    DigitsAreNotSkipped(ds, rest, base);
    DigitPrefixExact(ds, rest, base);
    assert (ds + rest)[..|ds|] == ds && (ds + rest)[|ds|..] == rest;
  }

  /** What the numbers then come to: a minus wraps around, and too large ones saturate, before the narrow
      conversions cut off the high bits. */
  lemma ScannedValues(neg: bool, m: nat)
    ensures Unsigned(neg, m) == if m > 0xffff_ffff_ffff_ffff then 0xffff_ffff_ffff_ffff
                                else if neg && m > 0 then 0x1_0000_0000_0000_0000 - m else m
    ensures neg ==> SignedValue(neg, m) == if m < 0x8000_0000_0000_0000 then 0 as int - m else -0x8000_0000_0000_0000
    ensures !neg ==> SignedValue(neg, m) == if m < 0x8000_0000_0000_0000 then m else 0x7fff_ffff_ffff_ffff
  {
  }

  lemma DropPrefix(p: string, rest: string)
    ensures p <= p + rest && (p + rest)[|p|..] == rest
  {
  }

  ghost predicate Recovers(fmt: seq<Field>, vals: seq<Value>, rest: string) {
    && AllFit(fmt, vals) && |vals| == |fmt|
    && Sscanf(Sprintf(fmt, vals) + rest, fmt) == vals
  }

  lemma SprintfOneMore(f: Field, v: Value, fmt: seq<Field>, vals: seq<Value>, rest: string)
    requires Fits(f.conv, v) && AllFit(fmt, vals) && |vals| == |fmt|
    ensures AllFit([f] + fmt, [v] + vals)
    ensures Sprintf([f] + fmt, [v] + vals) + rest == f.prefix + Print(f.conv, v) + (Sprintf(fmt, vals) + rest)
  {
  }

  lemma RecoversOneMore(f: Field, v: Value, fmt: seq<Field>, vals: seq<Value>, rest: string)
    requires Fits(f.conv, v) && Recovers(fmt, vals, rest)
    requires StopsAt(Sprintf(fmt, vals) + rest)
    ensures Recovers([f] + fmt, [v] + vals, rest)
  {
    ScanField(f, v, Sprintf(fmt, vals) + rest, fmt);
    SprintfOneMore(f, v, fmt, vals, rest);
    assert ([f] + fmt)[0] == f && ([v] + vals)[0] == v;
    assert forall i :: 0 < i < |vals| + 1 ==> ([f] + fmt)[i] == fmt[i - 1] && ([v] + vals)[i] == vals[i - 1];
  }

  /** For every format whose fields are separated by commas, scanning what was printed gives back the
      values, whatever follows the printed text after a comma. */
  lemma {:induction false} ScanUndoesPrint(fmt: seq<Field>, vals: seq<Value>, rest: string)
    requires AllFit(fmt, vals) && |vals| == |fmt|
    requires Separated(fmt) && StopsAt(rest)
    ensures Sscanf(Sprintf(fmt, vals) + rest, fmt) == vals
  {
    if fmt != [] {
      var fmt', vals' := fmt[1..], vals[1..];
      TailFits(fmt, vals);
      ScanUndoesPrint(fmt', vals', rest);
      RestStops(fmt', vals', rest);
      assert fmt == [fmt[0]] + fmt' && vals == [vals[0]] + vals';
      RecoversOneMore(fmt[0], vals[0], fmt', vals', rest);
    }
  }

  lemma TailFits(fmt: seq<Field>, vals: seq<Value>)
    requires AllFit(fmt, vals) && |vals| == |fmt| && Separated(fmt) && fmt != []
    ensures AllFit(fmt[1..], vals[1..]) && Separated(fmt[1..]) && Fits(fmt[0].conv, vals[0])
    ensures fmt[1..] != [] ==> fmt[1..][0].prefix == ","
  {
  }

  /** What follows the first field begins with a comma, or is what follows the text. */
  lemma RestStops(fmt: seq<Field>, vals: seq<Value>, rest: string)
    requires AllFit(fmt, vals) && |vals| == |fmt| && StopsAt(rest)
    requires fmt != [] ==> fmt[0].prefix == ","
    ensures StopsAt(Sprintf(fmt, vals) + rest)
  {
    if fmt == [] {
      assert Sprintf(fmt, vals) + rest == rest;
    } else {
      assert Sprintf(fmt, vals)[0] == ',';
    }
  }

  lemma AppendNothing(s: string)
    ensures s + "" == s
  {
  }

  /** Scanning the printed values by a format that goes on gives the values. */
  ghost predicate ScansAsFar(fmt: seq<Field>, vals: seq<Value>, more: seq<Field>) {
    && AllFit(fmt, vals) && |vals| == |fmt|
    && Sscanf(Sprintf(fmt, vals), fmt + more) == vals
  }

  lemma EndOneMore(f: Field, v: Value, fmt: seq<Field>, vals: seq<Value>, more: seq<Field>)
    requires Fits(f.conv, v) && ScansAsFar(fmt, vals, more) && StopsAt(Sprintf(fmt, vals))
    ensures ScansAsFar([f] + fmt, [v] + vals, more)
  {
    SprintfFirst(f, v, fmt, vals);
    ScanField(f, v, Sprintf(fmt, vals), fmt + more);
    FieldsAssociate(f, fmt, more);
  }

  lemma FieldsAssociate(f: Field, fmt: seq<Field>, more: seq<Field>)
    ensures [f] + fmt + more == [f] + (fmt + more)
  {
  }

  lemma SprintfFirst(f: Field, v: Value, fmt: seq<Field>, vals: seq<Value>)
    requires Fits(f.conv, v) && AllFit(fmt, vals) && |vals| == |fmt|
    ensures AllFit([f] + fmt, [v] + vals)
    ensures Sprintf([f] + fmt, [v] + vals) == f.prefix + Print(f.conv, v) + Sprintf(fmt, vals)
  {
    assert ([f] + fmt)[1..] == fmt && ([v] + vals)[1..] == vals;
  }

  /** So a text that ends before the format does gives back what was printed. */
  lemma {:induction false} ScanStopsAtEnd(fmt: seq<Field>, vals: seq<Value>, more: seq<Field>)
    requires AllFit(fmt, vals) && |vals| == |fmt| && Separated(fmt) && (more != [] ==> more[0].prefix != "")
    ensures ScansAsFar(fmt, vals, more)
  {
    if fmt == [] {
      assert fmt + more == more;
    } else {
      var fmt', vals' := fmt[1..], vals[1..];
      TailFits(fmt, vals);
      ScanStopsAtEnd(fmt', vals', more);
      RestStops(fmt', vals', "");
      AppendNothing(Sprintf(fmt', vals'));
      EndOneMore(fmt[0], vals[0], fmt', vals', more);
      assert fmt == [fmt[0]] + fmt' && vals == [vals[0]] + vals';
    }
  }

  lemma SprintfFrom(fmt: seq<Field>, vals: seq<Value>, i: nat)
    requires AllFit(fmt, vals) && |vals| == |fmt| && i < |fmt|
    ensures AllFit(fmt[i..], vals[i..]) && AllFit(fmt[i + 1..], vals[i + 1..])
    ensures Sprintf(fmt[i..], vals[i..]) ==
      fmt[i].prefix + Print(fmt[i].conv, vals[i]) + Sprintf(fmt[i + 1..], vals[i + 1..])
  {
    assert fmt[i..][1..] == fmt[i + 1..] && vals[i..][1..] == vals[i + 1..];
  }

  // ----- commas and lines -----

  function Commas(s: string): nat {
    if s == [] then 0 else Commas(s[..|s| - 1]) + if s[|s| - 1] == ',' then 1 else 0
  }

  lemma {:induction false} CommasConcat(s: string, t: string)
    ensures Commas(s + t) == Commas(s) + Commas(t)
  {
    if t == [] {
      assert s + t == s;
    } else {
      assert (s + t)[..|s + t| - 1] == s + t[..|t| - 1];
      CommasConcat(s, t[..|t| - 1]);
    }
  }

  lemma {:induction false} NoCommas(s: string)
    requires ',' !in s
    ensures Commas(s) == 0
  {
    if s != [] {
      NoCommas(s[..|s| - 1]);
    }
  }

  lemma PrintHasNoComma(d: Conversion, v: Value)
    requires Fits(d, v)
    ensures ',' !in Print(d, v)
  {
  }

  /** A printed row has one comma fewer than fields. */
  lemma {:induction false} PrintedCommas(fmt: seq<Field>, vals: seq<Value>)
    requires AllFit(fmt, vals) && |vals| == |fmt| && Separated(fmt)
    ensures fmt != [] && ',' !in fmt[0].prefix ==> Commas(Sprintf(fmt, vals)) == |fmt| - 1
    ensures fmt != [] && fmt[0].prefix == "," ==> Commas(Sprintf(fmt, vals)) == |fmt|
  {
    if fmt != [] {
      var p, rest := Print(fmt[0].conv, vals[0]), Sprintf(fmt[1..], vals[1..]);
      PrintedCommas(fmt[1..], vals[1..]);
      PrintHasNoComma(fmt[0].conv, vals[0]);
      NoCommas(p);
      CommasConcat(fmt[0].prefix, p);
      CommasConcat(fmt[0].prefix + p, rest);
      if fmt[0].prefix == "," {
        assert ","[..0] == [];
      } else if ',' !in fmt[0].prefix {
        NoCommas(fmt[0].prefix);
      }
    }
  }

  lemma {:induction false} PrintedHasNoNewline(fmt: seq<Field>, vals: seq<Value>)
    requires AllFit(fmt, vals) && |vals| == |fmt|
    requires forall i :: 0 <= i < |fmt| ==> '\n' !in fmt[i].prefix && (vals[i].S? ==> '\n' !in vals[i].s)
    ensures '\n' !in Sprintf(fmt, vals)
  {
    if fmt != [] {
      PrintedHasNoNewline(fmt[1..], vals[1..]);
      assert '\n' !in Print(fmt[0].conv, vals[0]);
    }
  }

  /** `std::getline`: the text up to the first delimiter. */
  function LineLength(s: string, d: char): (n: nat)
    ensures n <= |s|
  {
    if s == [] || s[0] == d then 0 else 1 + LineLength(s[1..], d)
  }

  function Remainder(s: string, d: char): (r: string)
    ensures s != [] ==> |r| < |s|
  {
    var n := LineLength(s, d);
    if n < |s| then s[n + 1..] else []
  }

  /** One `std::getline`: fails at the end of the stream, else delivers a line and moves past its delimiter. */
  method GetLine(s: string, d: char) returns (ok: bool, line: string, rest: string)
    ensures ok <==> s != []
    ensures ok ==> d !in line && (s == line + [d] + rest || (s == line && rest == ""))
    ensures Lines(s, d) == if ok then [line] + Lines(rest, d) else []
    ensures ok ==> |rest| < |s|
    ensures !ok ==> line == "" && rest == ""
  {
    if s == [] { return false, "", ""; }
    var n := 0;
    while n < |s| && s[n] != d
      invariant n <= |s| && d !in s[..n]
    {
      n := n + 1;
    }
    LineLengthExact(s[..n], d, s[n..]);
    assert s[..n] + s[n..] == s;
    return true, s[..n], if n < |s| then s[n + 1..] else "";
  }

  /** What repeated `getline` calls deliver. */
  function Lines(s: string, d: char): seq<string>
    decreases |s|
  {
    if s == [] then [] else [s[..LineLength(s, d)]] + Lines(Remainder(s, d), d)
  }

  /** Every piece followed by the delimiter. */
  function Terminated(pieces: seq<string>, d: char): string {
    if pieces == [] then "" else pieces[0] + [d] + Terminated(pieces[1..], d)
  }

  lemma {:induction false} TerminatedAppend(pieces: seq<string>, p: string, d: char)
    ensures Terminated(pieces + [p], d) == Terminated(pieces, d) + p + [d]
  {
    if pieces == [] {
      assert [p][1..] == [];
    } else {
      TerminatedAppend(pieces[1..], p, d);
      assert (pieces + [p])[1..] == pieces[1..] + [p];
    }
  }

  lemma TerminatedPrefix(pieces: seq<string>, n: nat, d: char)
    requires n < |pieces|
    ensures Terminated(pieces[..n + 1], d) == Terminated(pieces[..n], d) + pieces[n] + [d]
  {
    TerminatedAppend(pieces[..n], pieces[n], d);
    assert pieces[..n + 1] == pieces[..n] + [pieces[n]];
  }

  lemma {:induction false} LineLengthExact(line: string, d: char, rest: string)
    requires d !in line && (rest == [] || rest[0] == d)
    ensures LineLength(line + rest, d) == |line|
  {
    if line != [] {
      LineLengthExact(line[1..], d, rest);
      assert (line + rest)[1..] == line[1..] + rest;
    }
  }

  lemma FirstLine(line: string, d: char, rest: string)
    requires d !in line
    ensures Lines(line + ([d] + rest), d) == [line] + Lines(rest, d)
  {
    var s := line + ([d] + rest);
    LineLengthExact(line, d, [d] + rest);
    assert s[..|line|] == line;
    assert Remainder(s, d) == rest;
  }

  lemma OnlyLine(line: string, d: char)
    requires d !in line && line != ""
    ensures Lines(line, d) == [line]
  {
    LineLengthExact(line, d, "");
    assert line + "" == line;
    assert Remainder(line, d) == "" && Lines("", d) == [];
  }

  lemma TerminatedFirst(pieces: seq<string>, d: char, tail: string)
    requires pieces != []
    ensures Terminated(pieces, d) + tail == pieces[0] + ([d] + (Terminated(pieces[1..], d) + tail))
  {
  }

  lemma ConsAssociates(s: seq<string>, t: seq<string>)
    requires s != []
    ensures [s[0]] + (s[1..] + t) == s + t
  {
  }

  /** Splitting undoes terminating: each piece comes back, then the lines of what follows. */
  lemma {:induction false} LinesOfTerminated(pieces: seq<string>, d: char, tail: string)
    requires forall i :: 0 <= i < |pieces| ==> d !in pieces[i]
    ensures Lines(Terminated(pieces, d) + tail, d) == pieces + Lines(tail, d)
  {
    if pieces == [] {
      assert Terminated(pieces, d) + tail == tail;
    } else {
      var rest := Terminated(pieces[1..], d) + tail;
      calc {
        Lines(Terminated(pieces, d) + tail, d);
        { TerminatedFirst(pieces, d, tail); }
        Lines(pieces[0] + ([d] + rest), d);
        { FirstLine(pieces[0], d, rest); }
        [pieces[0]] + Lines(rest, d);
        { LinesOfTerminated(pieces[1..], d, tail); }
        [pieces[0]] + (pieces[1..] + Lines(tail, d));
        { ConsAssociates(pieces, Lines(tail, d)); }
        pieces + Lines(tail, d);
      }
    }
  }

  /** Splitting undoes joining with the delimiter between pieces. */
  lemma LinesOfJoined(init: seq<string>, last: string, d: char)
    requires (forall i :: 0 <= i < |init| ==> d !in init[i]) && d !in last && last != ""
    ensures Lines(Terminated(init, d) + last, d) == init + [last]
  {
    LinesOfTerminated(init, d, last);
    OnlyLine(last, d);
  }
}
