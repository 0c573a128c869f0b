/**
 The number and date normalisation behind `extractAmountXaf` and `parseToIso`
 (apps/worker-extractor/src/deterministic.ts). The search patterns that find an
 amount or a date in running text are not modelled; this is what happens to the
 text they capture.
 */
module Deterministic {
  import opened JsStrings
  import opened Wrappers

  const PLAUSIBLE_MAX_XAF: int := 10_000_000_000_000

  // -------------------------------------------------------------- digit strings

  predicate IsDigit(c: char) { '0' <= c <= '9' }

  predicate AllDigits(s: string) { forall i :: 0 <= i < |s| ==> IsDigit(s[i]) }

  function DigitValue(c: char): int
    requires IsDigit(c)
  {
    c as int - '0' as int
  }

  /** `Number.parseInt(s, 10)`; the empty string counts as zero here. */
  function ValueOf(s: string): (r: nat)
    requires AllDigits(s)
  {
    if s == [] then 0 else 10 * ValueOf(s[..|s| - 1]) + DigitValue(s[|s| - 1])
  }

  function DigitChar(d: nat): (c: char)
    requires d < 10
    ensures IsDigit(c) && DigitValue(c) == d
  {
    (d + '0' as int) as char
  }

  /** The last k decimal digits of n, zero-padded. */
  function Pad(n: nat, k: nat): (r: string)
    ensures |r| == k && AllDigits(r)
  {
    if k == 0 then [] else Pad(n / 10, k - 1) + [DigitChar(n % 10)]
  }

  function Digits(n: nat): (r: string)
    ensures r != [] && AllDigits(r)
  {
    if n < 10 then [DigitChar(n)] else Digits(n / 10) + [DigitChar(n % 10)]
  }

  lemma {:induction false} ValueOfDigits(n: nat)
    ensures ValueOf(Digits(n)) == n
  {
    if n >= 10 {
      ValueOfDigits(n / 10);
      assert Digits(n)[..|Digits(n)| - 1] == Digits(n / 10);
    }
  }

  lemma PadOneMore(s: string, n: nat, k: nat)
    requires AllDigits(s)
    ensures s + Pad(n, k + 1) == (s + Pad(n / 10, k)) + [DigitChar(n % 10)]
    ensures AllDigits(s + Pad(n / 10, k)) && AllDigits(s + Pad(n, k + 1))
    ensures ValueOf(s + Pad(n, k + 1)) == 10 * ValueOf(s + Pad(n / 10, k)) + n % 10
  {
  }

  lemma ValueOfPad1After(s: string, n: nat)
    requires AllDigits(s) && n < 10
    ensures AllDigits(s + Pad(n, 1)) && ValueOf(s + Pad(n, 1)) == 10 * ValueOf(s) + n
  {
  }

  lemma ValueOfPad2After(s: string, n: nat)
    requires AllDigits(s) && n < 100
    ensures AllDigits(s + Pad(n, 2)) && ValueOf(s + Pad(n, 2)) == 100 * ValueOf(s) + n
  {
    PadOneMore(s, n, 1);
    ValueOfPad1After(s, n / 10);
  }

  lemma ValueOfPad3After(s: string, n: nat)
    requires AllDigits(s) && n < 1000
    ensures AllDigits(s + Pad(n, 3)) && ValueOf(s + Pad(n, 3)) == 1000 * ValueOf(s) + n
  {
    PadOneMore(s, n, 2);
    ValueOfPad2After(s, n / 10);
  }

  lemma ValueOfPad2(n: nat)
    requires n < 100
    ensures ValueOf(Pad(n, 2)) == n
  {
    ValueOfPad2After([], n);
    assert [] + Pad(n, 2) == Pad(n, 2);
  }

  lemma ValueOfPad4(n: nat)
    requires n < 10_000
    ensures ValueOf(Pad(n, 4)) == n
  {
    PadOneMore([], n, 3);
    ValueOfPad3After([], n / 10);
    assert [] + Pad(n, 4) == Pad(n, 4);
  }

  // -------------------------------------------------------------------- amounts

  predicate IsSeparator(c: char) { IsSpace(c) || c == '.' || c == ',' }

  /** White space as JavaScript's `\s` has it, a point or a comma: by their codes. */
  lemma SeparatorCodes(c: char)
    ensures IsSeparator(c) <==>
      c as int in {9, 10, 11, 12, 13, 32, 44, 46, 160, 0x1680, 0x2000, 0x2001, 0x2002, 0x2003, 0x2004, 0x2005, 0x2006,
                   0x2007, 0x2008, 0x2009, 0x200a, 0x2028, 0x2029, 0x202f, 0x205f, 0x3000, 0xfeff}
  {
    SpaceCodes(c);
  }

  /** `intPart.replace(/[\s.,]/g, '')`. */
  function StripSeparators(s: string): string {
    if s == [] then []
    else StripSeparators(s[..|s| - 1]) + if IsSeparator(s[|s| - 1]) then [] else [s[|s| - 1]]
  }

  /** Removing the separators goes character by character: a separator goes, another stays. */
  lemma {:induction false} StripAdds(a: string, b: string)
    ensures StripSeparators(a + b) == StripSeparators(a) + StripSeparators(b)
    ensures |b| == 1 ==> StripSeparators(b) == if IsSeparator(b[0]) then [] else b
  {
    if b == [] {
      assert a + b == a;
    } else {
      var init := b[..|b| - 1];
      assert (a + b)[..|a + b| - 1] == a + init;
      StripAdds(a, init);
      assert |b| == 1 ==> init == [] && b == [b[0]];
    }
  }

  function LastIndexOf(s: string, c: char): (r: int)
    ensures -1 <= r < |s|
    ensures r >= 0 ==> s[r] == c
    ensures forall i :: r < i < |s| ==> s[i] != c
  {
    if s == [] then -1 else if s[|s| - 1] == c then |s| - 1 else LastIndexOf(s[..|s| - 1], c)
  }

  /** One or two digits: a decimal part. */
  predicate IsDecimals(s: string) { 1 <= |s| <= 2 && AllDigits(s) }

  function Max(a: int, b: int): int { if a > b then a else b }

  /** Where the decimal separator is, if there is one. */
  function DecimalAt(raw: string): (r: int)
    ensures -1 <= r < |raw|
  {
    var decIdx := Max(LastIndexOf(raw, '.'), LastIndexOf(raw, ','));
    if decIdx >= 0 && IsDecimals(raw[decIdx + 1..]) then decIdx else -1
  }

  /** The number `digits.decimals`, exactly. */
  function Exact(digits: string, decimals: string): real
    requires AllDigits(digits) && AllDigits(decimals) && |decimals| <= 2
  {
    ValueOf(digits) as real +
    ValueOf(decimals) as real / (if |decimals| == 2 then 100.0 else if |decimals| == 1 then 10.0 else 1.0)
  }

  /** `Math.round`: to the nearest integer, halves upwards. */
  function Round(x: real): int { (x + 0.5).Floor }

  function Plausible(v: int): Option<int> {
    if 0 < v <= PLAUSIBLE_MAX_XAF then Some(v) else None
  }

  /** Positive, and at most ten trillion. */
  lemma PlausibleMeans(v: int)
    ensures Plausible(v) == if 1 <= v <= 10_000_000_000_000 then Some(v) else None
  {
  }

  /** Decimals are one digit or two, which are 48 to 57. */
  lemma DecimalsMean(s: string)
    ensures IsDecimals(s) <==>
      (|s| == 1 || |s| == 2) && forall i :: 0 <= i < |s| ==> 48 <= s[i] as int <= 57
  {
  }

  function Amount(raw: string): Option<int> {
    var at := DecimalAt(raw);
    var intDigits := StripSeparators(if at == -1 then raw else raw[..at]);
    if intDigits == [] || !AllDigits(intDigits) then None
    else if at == -1 then Plausible(ValueOf(intDigits))
    else Plausible(Round(Exact(intDigits, raw[at + 1..])))
  }

  /** `s` writes n in groups of three, with any separator in each gap. */
  ghost predicate Grouped(s: string, n: nat) {
    if n < 1000 then s == Digits(n)
    else
      && |s| >= 4 && IsSeparator(s[|s| - 4]) && s[|s| - 3..] == Pad(n % 1000, 3)
      && Grouped(s[..|s| - 4], n / 1000)
  }

  lemma StripOfDigit(s: string, d: char)
    requires IsDigit(d)
    ensures StripSeparators(s + [d]) == StripSeparators(s) + [d]
  {
    assert (s + [d])[..|s|] == s;
  }

  lemma SplitLast(s: string, ds: string)
    requires ds != []
    ensures s + ds == s + ds[..|ds| - 1] + [ds[|ds| - 1]]
  {
  }

  lemma {:induction false} StripOfDigits(s: string, ds: string)
    requires AllDigits(ds)
    ensures StripSeparators(s + ds) == StripSeparators(s) + ds
  {
    if ds == [] {
      assert s + ds == s;
    } else {
      var init, d := ds[..|ds| - 1], ds[|ds| - 1];
      StripOfDigits(s, init);
      StripOfDigit(s + init, d);
      SplitLast(s, ds);
      SplitLast(StripSeparators(s), ds);
    }
  }

  /** Removing the separators leaves the digits of n. */
  lemma {:induction false} GroupedValue(s: string, n: nat)
    requires Grouped(s, n)
    ensures var d := StripSeparators(s); d != [] && AllDigits(d) && ValueOf(d) == n
  {
    if n < 1000 {
      StripOfDigits([], Digits(n));
      assert [] + Digits(n) == s;
      ValueOfDigits(n);
    } else {
      var head, last := s[..|s| - 4], s[|s| - 3..];
      GroupedValue(head, n / 1000);
      assert s[..|s| - 3][..|s| - 4] == head;
      assert StripSeparators(s[..|s| - 3]) == StripSeparators(head);
      assert s == s[..|s| - 3] + last;
      StripOfDigits(s[..|s| - 3], last);
      ValueOfPad3After(StripSeparators(head), n % 1000);
    }
  }

  /** A grouped number has no decimal part: three digits follow its last separator. */
  lemma GroupedHasNoDecimals(s: string, n: nat)
    requires Grouped(s, n)
    ensures DecimalAt(s) == -1
  {
  }

  /** Every amount written in groups of three is read back, whatever separates the groups. */
  lemma GroupedAmountRoundTrip(s: string, n: nat)
    requires Grouped(s, n)
    ensures Amount(s) == Plausible(n)
  {
    GroupedValue(s, n);
    GroupedHasNoDecimals(s, n);
  }

  /** So is one written without groups. */
  lemma PlainAmountRoundTrip(n: nat)
    ensures Amount(Digits(n)) == Plausible(n)
  {
    var s := Digits(n);
    assert forall i :: 0 <= i < |s| ==> IsDigit(s[i]);
    assert DecimalAt(s) == -1;
    StripOfDigits([], s);
    assert [] + s == s;
    ValueOfDigits(n);
  }

  lemma DigitsOfAmount(s: string, n: nat)
    requires WritesInteger(s, n)
    ensures var d := StripSeparators(s); d != [] && AllDigits(d) && ValueOf(d) == n
  {
    if s == Digits(n) {
      StripOfDigits([], s);
      assert [] + s == s;
      ValueOfDigits(n);
    } else {
      GroupedValue(s, n);
    }
  }

  lemma RoundIsNearest(x: real)
    ensures Round(x) as real - 0.5 <= x < Round(x) as real + 0.5
  {
  }

  /** The exact value of n with decimals behind it. */
  function WithDecimals(n: nat, decimals: string): real
    requires IsDecimals(decimals)
  {
    n as real + ValueOf(decimals) as real / if |decimals| == 2 then 100.0 else 10.0
  }

  /** `s` writes n, with or without groups. */
  ghost predicate WritesInteger(s: string, n: nat) { Grouped(s, n) || s == Digits(n) }

  /** `raw` writes n with decimals behind it. */
  ghost predicate WritesDecimal(raw: string, s: string, n: nat, decimals: string) {
    && WritesInteger(s, n) && IsDecimals(decimals)
    && (raw == s + "." + decimals || raw == s + "," + decimals)
  }

  /** With one or two decimals behind a point or a comma, grouped or not, the amount is
      the nearest integer, halves upwards. */
  lemma DecimalAmountRoundTrip(s: string, n: nat, point: char, decimals: string)
    requires WritesInteger(s, n)
    requires (point == '.' || point == ',') && IsDecimals(decimals)
    ensures var v := Round(WithDecimals(n, decimals));
      && Amount(s + [point] + decimals) == Plausible(v)
      && v as real - 0.5 <= WithDecimals(n, decimals) < v as real + 0.5
  {
    var raw := s + [point] + decimals;
    DecimalPointFound(s, point, decimals);
    assert raw[..|s|] == s && raw[|s| + 1..] == decimals;
    DigitsOfAmount(s, n);
    assert Exact(StripSeparators(s), decimals) == WithDecimals(n, decimals);
    RoundIsNearest(WithDecimals(n, decimals));
  }

  /** The text in front of the decimals, or all of it, without its separators: digits, and
      at least one. */
  ghost predicate Readable(s: string) { StripSeparators(s) != [] && AllDigits(StripSeparators(s)) }

  ghost function ReadWith(s: string, decimals: string): Option<int>
    requires IsDecimals(decimals)
  {
    if Readable(s) then Plausible(Round(WithDecimals(ValueOf(StripSeparators(s)), decimals))) else None
  }

  lemma AmountAt(raw: string, s: string, decimals: string)
    requires DecimalAt(raw) == |s| && raw[..|s|] == s && raw[|s| + 1..] == decimals && IsDecimals(decimals)
    ensures Amount(raw) == ReadWith(s, decimals)
  {
  }

  /** Whatever the text: one or two digits behind a point or a comma are decimals, and
      everything else must be digits and separators .. */
  lemma AmountWithDecimals(s: string, point: char, decimals: string)
    requires (point == '.' || point == ',') && IsDecimals(decimals)
    ensures Amount(s + [point] + decimals) == ReadWith(s, decimals)
  {
    DecimalPointFound(s, point, decimals);
    AmountAt(s + [point] + decimals, s, decimals);
  }

  ghost predicate EndsInDecimals(raw: string, at: nat) {
    at < |raw| && (raw[at] == '.' || raw[at] == ',') && IsDecimals(raw[at + 1..])
  }

  /** .. and without such an end, all of it must be. */
  lemma AmountWithoutDecimals(raw: string)
    requires forall at: nat :: !EndsInDecimals(raw, at)
    ensures Amount(raw) == if Readable(raw) then Plausible(ValueOf(StripSeparators(raw))) else None
  {
    if DecimalAt(raw) != -1 { assert EndsInDecimals(raw, DecimalAt(raw)); }
  }

  lemma DecimalPointFound(s: string, point: char, decimals: string)
    requires (point == '.' || point == ',') && IsDecimals(decimals)
    ensures DecimalAt(s + [point] + decimals) == |s|
  {
    var raw := s + [point] + decimals;
    assert raw[|s|] == point && raw[|s| + 1..] == decimals;
    assert forall i :: |s| < i < |raw| ==> raw[i] == decimals[i - |s| - 1] && IsDigit(raw[i]);
    assert LastIndexOf(raw, point) == |s|;
  }

  /** What the captured text comes to. However an amount is written, in groups of three
      behind any separators or without groups, with or without one or two decimals behind
      a point or a comma, it is read as that amount. */
  method NormaliseAmount(raw: string) returns (r: Option<int>)
    ensures forall n: nat :: WritesInteger(raw, n) ==> r == Plausible(n)
    ensures forall s, n: nat, decimals :: WritesDecimal(raw, s, n, decimals) ==>
      r == Plausible(Round(WithDecimals(n, decimals)))
    ensures r == Amount(raw)
  {
    var lastDot := LastIndexOf(raw, '.');
    var lastComma := LastIndexOf(raw, ',');
    var decIdx := Max(lastDot, lastComma);
    var intPart, decPart := raw, "";
    if decIdx >= 0 && IsDecimals(raw[decIdx + 1..]) {
      intPart := raw[..decIdx];
      decPart := raw[decIdx + 1..];
    }
    WrittenAmountsRead(raw);
    var intDigits := StripSeparators(intPart);
    if intDigits != [] && AllDigits(intDigits) {
      var value: int;
      if |decPart| > 0 {
        value := Round(Exact(intDigits, decPart));
      } else {
        value := ValueOf(intDigits);
      }
      if value > 0 && value <= PLAUSIBLE_MAX_XAF { return Some(value); }
    }
    return None;
  }

  lemma WrittenAmountsRead(raw: string)
    ensures forall n: nat :: WritesInteger(raw, n) ==> Amount(raw) == Plausible(n)
    ensures forall s, n: nat, decimals :: WritesDecimal(raw, s, n, decimals) ==>
      Amount(raw) == Plausible(Round(WithDecimals(n, decimals)))
  {
    forall n: nat | WritesInteger(raw, n) ensures Amount(raw) == Plausible(n) {
      if Grouped(raw, n) { GroupedAmountRoundTrip(raw, n); } else { PlainAmountRoundTrip(n); }
    }
    forall s, n: nat, decimals | WritesDecimal(raw, s, n, decimals)
      ensures Amount(raw) == Plausible(Round(WithDecimals(n, decimals)))
    {
      DecimalAmountRoundTrip(s, n, raw[|s|], decimals);
    }
  }

  // ---------------------------------------------------------------------- dates

  /** How many characters at the front are digits. */
  function DigitRun(s: string): (r: nat)
    ensures r <= |s| && AllDigits(s[..r]) && (r < |s| ==> !IsDigit(s[r]))
  {
    if s == [] || !IsDigit(s[0]) then 0
    else
      var r := 1 + DigitRun(s[1..]);
      assert s[..r] == [s[0]] + s[1..][..r - 1];
      r
  }

  predicate IsDateSeparator(c: char) { c == '-' || c == '/' || c == '.' }

  /** A dash, a point or a slash. */
  lemma DateSeparatorCodes(c: char)
    ensures IsDateSeparator(c) <==> c as int in {45, 46, 47}
  {
  }

  datatype Fields = Fields(first: string, second: string, third: string)

  predicate DigitFields(f: Fields) { AllDigits(f.first) && AllDigits(f.second) && AllDigits(f.third) }

  /** Three runs of digits with a separator between them and nothing else. */
  function SplitNumeric(s: string): (r: Option<Fields>)
    ensures r.Some? ==> DigitFields(r.value)
  {
    var a := DigitRun(s);
    if a == |s| || !IsDateSeparator(s[a]) then None
    else
      var t := s[a + 1..];
      var b := DigitRun(t);
      if b == |t| || !IsDateSeparator(t[b]) then None
      else
        var u := t[b + 1..];
        if AllDigits(u) then Some(Fields(s[..a], t[..b], u)) else None
  }

  function LowerFr(c: char): char {
    if 'A' <= c <= 'Z' then (c as int + 32) as char
    else if c as int == 0xC9 then 0xE9 as char   // E acute
    else if c as int == 0xDB then 0xFB as char   // U circumflex
    else c
  }

  function LowerWord(s: string): string {
    seq(|s|, i requires 0 <= i < |s| => LowerFr(s[i]))
  }

  const FR_MONTHS: seq<(string, string)> := [
    ("janvier", "01"), ("f\U{e9}vrier", "02"), ("fevrier", "02"), ("mars", "03"), ("avril", "04"),
    ("mai", "05"), ("juin", "06"), ("juillet", "07"), ("ao\U{fb}t", "08"), ("aout", "08"),
    ("septembre", "09"), ("octobre", "10"), ("novembre", "11"), ("d\U{e9}cembre", "12"), ("decembre", "12")]

  predicate IsMonthLetter(c: char) { 'a' <= c <= 'z' || c as int == 0xE9 || c as int == 0xFB }

  predicate IsMonthWord(w: string) { w != [] && forall i :: 0 <= i < |w| ==> IsMonthLetter(w[i]) }

  /** Names are words, and months are numbers. */
  predicate IsMonthEntry(e: (string, string)) { IsMonthWord(e.0) && AllDigits(e.1) }

  predicate IsMonthTable(table: seq<(string, string)>) {
    forall i :: 0 <= i < |table| ==> IsMonthEntry(table[i])
  }

  lemma MonthTable()
    ensures IsMonthTable(FR_MONTHS)
  {
    EarlyMonths();
    MiddleMonths();
    LateMonths();
    assert FR_MONTHS == FR_MONTHS[..5] + FR_MONTHS[5..10] + FR_MONTHS[10..];
  }

  lemma EarlyMonths()
    ensures IsMonthTable(FR_MONTHS[..5])
  {
  }

  lemma MiddleMonths()
    ensures IsMonthTable(FR_MONTHS[5..10])
  {
  }

  lemma LateMonths()
    ensures IsMonthTable(FR_MONTHS[10..])
  {
  }

  function Lookup(table: seq<(string, string)>, w: string): (r: Option<string>)
    ensures r.Some? && IsMonthTable(table) ==> IsMonthWord(w) && AllDigits(r.value)
  {
    if table == [] then None
    else if table[0].0 == w then Some(table[0].1)
    else
      assert IsMonthTable(table) ==> IsMonthTable(table[1..]);
      Lookup(table[1..], w)
  }

  /** `FR_MONTHS[w]`. */
  function MonthNumber(w: string): (r: Option<string>)
    ensures r.Some? ==> IsMonthWord(w) && AllDigits(r.value)
  {
    MonthTable();
    Lookup(FR_MONTHS, w)
  }

  function WordRun(s: string): (r: nat)
    ensures r <= |s|
  {
    if s == [] || IsSpace(s[0]) || IsDigit(s[0]) then 0 else 1 + WordRun(s[1..])
  }

  /** Day, month word, year, separated by white space. */
  function SplitWords(s: string): (r: Option<Fields>)
    ensures r.Some? ==> AllDigits(r.value.first) && AllDigits(r.value.third)
  {
    var a := DigitRun(s);
    var t := s[a..];
    var i := SpaceRun(t);
    var u := t[i..];
    var b := WordRun(u);
    var v := u[b..];
    var j := SpaceRun(v);
    if i >= 1 && b >= 1 && j >= 1 && AllDigits(v[j..]) then Some(Fields(s[..a], u[..b], v[j..])) else None
  }

  ghost predicate PlausibleDate(yy: int, mm: int, dd: int) {
    1990 <= yy <= 2099 && 1 <= mm <= 12 && 1 <= dd <= 31
  }

  ghost predicate IsIso(s: string) {
    exists yy: nat, mm: nat, dd: nat :: PlausibleDate(yy, mm, dd) && s == Iso(yy, mm, dd)
  }

  function FormatIso(y: string, mo: string, d: string): (r: Option<string>)
    requires AllDigits(y) && AllDigits(mo) && AllDigits(d)
    ensures r.Some? ==> IsIso(r.value)
  {
    var yy, mm, dd := ValueOf(y), ValueOf(mo), ValueOf(d);
    if yy < 1990 || yy > 2099 then None
    else if mm < 1 || mm > 12 then None
    else if dd < 1 || dd > 31 then None
    else
      assert PlausibleDate(yy, mm, dd);
      Some(Iso(yy, mm, dd))
  }

  function Iso(yy: nat, mm: nat, dd: nat): string {
    Pad(yy, 4) + "-" + Pad(mm, 2) + "-" + Pad(dd, 2)
  }

  /** A two-digit year is in this century. */
  function FullYear(y: string): (r: string)
    requires AllDigits(y)
    ensures AllDigits(r)
  {
    if |y| == 2 then "20" + y else y
  }

  /** Day, month word, year. */
  function ParseWords(s: string): (r: Option<string>)
    ensures r.Some? ==> IsIso(r.value)
  {
    var w := SplitWords(s);
    if w.Some? && 1 <= |w.value.first| <= 2 && 2 <= |w.value.third| <= 4 then
      var mo := MonthNumber(LowerWord(w.value.second));
      if mo.Some? then FormatIso(FullYear(w.value.third), mo.value, w.value.first) else None
    else None
  }

  /** Year, month, day in digits. */
  predicate YearFirst(f: Fields) { |f.first| == 4 && 1 <= |f.second| <= 2 && 1 <= |f.third| <= 2 }

  /** Day, month, year in digits. */
  predicate DayFirst(f: Fields) { 1 <= |f.first| <= 2 && 1 <= |f.second| <= 2 && 2 <= |f.third| <= 4 }

  function ParseTrimmed(s: string): (r: Option<string>)
    ensures r.Some? ==> IsIso(r.value)
  {
    var n := SplitNumeric(s);
    if n.Some? && YearFirst(n.value) then FormatIso(n.value.first, n.value.second, n.value.third)
    else if n.Some? && DayFirst(n.value) then FormatIso(FullYear(n.value.third), n.value.second, n.value.first)
    else ParseWords(s)
  }

  function ParseToIso(s: string): (r: Option<string>)
    ensures r.Some? ==> IsIso(r.value)
  {
    ParseTrimmed(Trim(s))
  }

  /** A run of digits, a separator and the rest come apart again. */
  lemma FieldComesApart(a: string, p: char, rest: string)
    requires AllDigits(a) && IsDateSeparator(p)
    ensures var s := a + [p] + rest;
      DigitRun(s) == |a| && s[|a|] == p && s[..|a|] == a && s[|a| + 1..] == rest
  {
  }

  /** Three fields with a character between them. */
  function Joined(a: string, p: char, b: string, q: char, c: string): string { a + [p] + b + [q] + c }

  lemma SplitNumericOf(a: string, p: char, b: string, q: char, c: string)
    requires AllDigits(a) && AllDigits(b) && AllDigits(c) && IsDateSeparator(p) && IsDateSeparator(q)
    ensures SplitNumeric(Joined(a, p, b, q, c)) == Some(Fields(a, b, c))
  {
    var s, t := a + [p] + b + [q] + c, b + [q] + c;
    assert s == a + [p] + t;
    assert DigitRun(s) == |a| && s[|a|] == p && s[..|a|] == a && s[|a| + 1..] == t by {
      FieldComesApart(a, p, t);
    }
    FieldComesApart(b, q, c);
  }

  // ------------------------------------------------- every way to write a date

  ghost predicate AllSpace(s: string) { forall i :: 0 <= i < |s| ==> IsSpace(s[i]) }

  /** A day or a month in one or two digits. */
  ghost predicate WritesPart(s: string, n: nat) { n < 100 && (s == Digits(n) || s == Pad(n, 2)) }

  /** A year in four digits, or a year of this century in two. */
  ghost predicate WritesYear(s: string, yy: nat) {
    yy < 10_000 && (s == Pad(yy, 4) || (2000 <= yy < 2100 && s == Pad(yy - 2000, 2)))
  }

  lemma PartValue(s: string, n: nat)
    requires WritesPart(s, n)
    ensures 1 <= |s| <= 2 && AllDigits(s) && ValueOf(s) == n
  {
    if s == Digits(n) { ValueOfDigits(n); } else { ValueOfPad2(n); }
  }

  lemma YearValue(s: string, yy: nat)
    requires WritesYear(s, yy)
    ensures (|s| == 2 || |s| == 4) && AllDigits(s) && ValueOf(FullYear(s)) == yy
  {
    if s == Pad(yy, 4) {
      ValueOfPad4(yy);
    } else {
      ValueOfTwenty();
      ValueOfPad2After("20", yy - 2000);
    }
  }

  lemma ValueOfTwenty()
    ensures AllDigits("20") && ValueOf("20") == 20
  {
    assert "20"[..1] == "2" && "2"[..0] == "";
    assert ValueOf("2") == 2;
  }

  /** White space around a text is trimmed off. */
  lemma {:induction false} TrimStartOf(pre: string, core: string)
    requires AllSpace(pre) && (core != [] ==> !IsSpace(core[0]))
    ensures TrimStart(pre + core) == core
  {
    if pre != [] {
      assert (pre + core)[1..] == pre[1..] + core;
      TrimStartOf(pre[1..], core);
    } else {
      assert pre + core == core;
    }
  }

  lemma {:induction false} TrimEndOf(core: string, post: string)
    requires AllSpace(post) && (core != [] ==> !IsSpace(core[|core| - 1]))
    ensures TrimEnd(core + post) == core
  {
    if post != [] {
      var init := post[..|post| - 1];
      assert (core + post)[..|core + post| - 1] == core + init;
      TrimEndOf(core, init);
    } else {
      assert core + post == core;
    }
  }

  lemma {:induction false} TrimStartCuts(s: string) returns (pre: string)
    ensures s == pre + TrimStart(s) && AllSpace(pre) && (TrimStart(s) != [] ==> !IsSpace(TrimStart(s)[0]))
  {
    pre := [];
    if s != [] && IsSpace(s[0]) {
      var more := TrimStartCuts(s[1..]);
      pre := [s[0]] + more;
      assert s == [s[0]] + s[1..];
    }
  }

  lemma {:induction false} TrimEndCuts(s: string) returns (post: string)
    ensures s == TrimEnd(s) + post && AllSpace(post)
    ensures TrimEnd(s) != [] ==> !IsSpace(TrimEnd(s)[|TrimEnd(s)| - 1]) && TrimEnd(s)[0] == s[0]
  {
    post := [];
    if s != [] && IsSpace(s[|s| - 1]) {
      var more := TrimEndCuts(s[..|s| - 1]);
      post := more + [s[|s| - 1]];
      assert s == s[..|s| - 1] + [s[|s| - 1]];
    }
  }

  /** Trimming takes white space from both ends, and all of it. */
  lemma TrimCuts(s: string) returns (pre: string, post: string)
    ensures s == pre + Trim(s) + post && AllSpace(pre) && AllSpace(post)
    ensures Trim(s) != [] ==> !IsSpace(Trim(s)[0]) && !IsSpace(Trim(s)[|Trim(s)| - 1])
  {
    pre := TrimStartCuts(s);
    post := TrimEndCuts(TrimStart(s));
  }

  lemma TrimOf(pre: string, core: string, post: string)
    requires AllSpace(pre) && AllSpace(post)
    requires core != [] && IsDigit(core[0]) && IsDigit(core[|core| - 1])
    ensures ParseToIso(pre + core + post) == ParseTrimmed(core)
  {
    assert pre + core + post == pre + (core + post);
    TrimStartOf(pre, core + post);
    TrimEndOf(core, post);
  }

  lemma YearFirstFields(s: string, f: Fields, yy: nat, mm: nat, dd: nat)
    requires SplitNumeric(s) == Some(f) && DigitFields(f) && YearFirst(f) && PlausibleDate(yy, mm, dd)
    requires ValueOf(f.first) == yy && ValueOf(f.second) == mm && ValueOf(f.third) == dd
    ensures ParseTrimmed(s) == Some(Iso(yy, mm, dd))
  {
  }

  lemma DayFirstFields(s: string, f: Fields, yy: nat, mm: nat, dd: nat)
    requires SplitNumeric(s) == Some(f) && DigitFields(f) && DayFirst(f) && PlausibleDate(yy, mm, dd)
    requires ValueOf(FullYear(f.third)) == yy && ValueOf(f.second) == mm && ValueOf(f.first) == dd
    ensures ParseTrimmed(s) == Some(Iso(yy, mm, dd))
  {
  }

  lemma JoinedEnds(a: string, p: char, b: string, q: char, c: string)
    requires a != [] && c != []
    ensures var s := Joined(a, p, b, q, c); s != [] && s[0] == a[0] && s[|s| - 1] == c[|c| - 1]
  {
  }

  lemma YearFirstParses(yy: nat, p: char, m: string, mm: nat, q: char, d: string, dd: nat)
    requires PlausibleDate(yy, mm, dd) && IsDateSeparator(p) && IsDateSeparator(q)
    requires WritesPart(m, mm) && WritesPart(d, dd)
    ensures ParseTrimmed(Joined(Pad(yy, 4), p, m, q, d)) == Some(Iso(yy, mm, dd))
  {
    ValueOfPad4(yy);
    PartValue(m, mm);
    PartValue(d, dd);
    SplitNumericOf(Pad(yy, 4), p, m, q, d);
    YearFirstFields(Joined(Pad(yy, 4), p, m, q, d), Fields(Pad(yy, 4), m, d), yy, mm, dd);
  }

  lemma DayFirstParses(d: string, dd: nat, p: char, m: string, mm: nat, q: char, y: string, yy: nat)
    requires PlausibleDate(yy, mm, dd) && IsDateSeparator(p) && IsDateSeparator(q)
    requires WritesPart(m, mm) && WritesPart(d, dd) && WritesYear(y, yy)
    ensures ParseTrimmed(Joined(d, p, m, q, y)) == Some(Iso(yy, mm, dd))
  {
    PartValue(m, mm);
    PartValue(d, dd);
    YearValue(y, yy);
    SplitNumericOf(d, p, m, q, y);
    DayFirstFields(Joined(d, p, m, q, y), Fields(d, m, y), yy, mm, dd);
  }

  /** A date written in numbers comes out as that date, year first .. */
  lemma YearFirstDatesParse(pre: string, yy: nat, p: char, m: string, mm: nat, q: char, d: string, dd: nat, post: string)
    requires PlausibleDate(yy, mm, dd) && IsDateSeparator(p) && IsDateSeparator(q)
    requires WritesPart(m, mm) && WritesPart(d, dd) && AllSpace(pre) && AllSpace(post)
    ensures ParseToIso(pre + Joined(Pad(yy, 4), p, m, q, d) + post) == Some(Iso(yy, mm, dd))
  {
    YearFirstParses(yy, p, m, mm, q, d, dd);
    PartValue(d, dd);
    JoinedEnds(Pad(yy, 4), p, m, q, d);
    TrimOf(pre, Joined(Pad(yy, 4), p, m, q, d), post);
  }

  /** .. or day first, in one or two digits, with the year in four digits or in two .. */
  lemma DayFirstDatesParse(pre: string, d: string, dd: nat, p: char, m: string, mm: nat, q: char, y: string, yy: nat,
                           post: string)
    requires PlausibleDate(yy, mm, dd) && IsDateSeparator(p) && IsDateSeparator(q)
    requires WritesPart(m, mm) && WritesPart(d, dd) && WritesYear(y, yy) && AllSpace(pre) && AllSpace(post)
    ensures ParseToIso(pre + Joined(d, p, m, q, y) + post) == Some(Iso(yy, mm, dd))
  {
    DayFirstParses(d, dd, p, m, mm, q, y, yy);
    PartValue(d, dd);
    YearValue(y, yy);
    JoinedEnds(d, p, m, q, y);
    TrimOf(pre, Joined(d, p, m, q, y), post);
  }

  // ----------------------------------------------------------- month in words

  /** The name, with any of its letters in capitals: 32 codes lower, the two accented ones too. */
  ghost predicate InAnyCase(w: string, name: string) {
    |w| == |name| && forall i :: 0 <= i < |w| ==> w[i] == name[i] || w[i] as int + 32 == name[i] as int
  }

  /** `w` is a name of the month, in any letter case, with or without its accent. */
  ghost predicate NamesMonth(w: string, mm: nat) {
    match mm
    case 1 => InAnyCase(w, "janvier")
    case 2 => InAnyCase(w, "f\U{e9}vrier") || InAnyCase(w, "fevrier")
    case 3 => InAnyCase(w, "mars")
    case 4 => InAnyCase(w, "avril")
    case 5 => InAnyCase(w, "mai")
    case 6 => InAnyCase(w, "juin")
    case 7 => InAnyCase(w, "juillet")
    case 8 => InAnyCase(w, "ao\U{fb}t") || InAnyCase(w, "aout")
    case 9 => InAnyCase(w, "septembre")
    case 10 => InAnyCase(w, "octobre")
    case 11 => InAnyCase(w, "novembre")
    case 12 => InAnyCase(w, "d\U{e9}cembre") || InAnyCase(w, "decembre")
    case _ => false
  }

  lemma LowerWordEquatesCases(w: string, name: string)
    requires IsMonthWord(name)
    ensures LowerWord(w) == name <==> InAnyCase(w, name)
  {
    if LowerWord(w) == name {
      forall i | 0 <= i < |w| ensures w[i] == name[i] || w[i] as int + 32 == name[i] as int {
        assert LowerWord(w)[i] == LowerFr(w[i]);
      }
    }
    if InAnyCase(w, name) {
      forall i | 0 <= i < |w| ensures LowerWord(w)[i] == name[i] { assert IsMonthLetter(name[i]); }
    }
  }

  /** What tells the names apart: their lengths, and one of their first two letters. */
  ghost function MonthTold(w: string): nat
    requires |w| >= 2
  {
    match |w|
    case 3 => 5
    case 4 => if w[0] == 'm' then 3 else if w[0] == 'j' then 6 else 8
    case 5 => 4
    case 7 => if w[0] == 'f' then 2 else if w[0] == 'o' then 10 else if w[1] == 'a' then 1 else 7
    case 8 => if w[0] == 'n' then 11 else 12
    case _ => 9
  }

  ghost predicate Told(e: (string, string)) {
    |e.0| >= 2 && |e.1| == 2 && AllDigits(e.1)
    && 10 * DigitValue(e.1[0]) + DigitValue(e.1[1]) == MonthTold(e.0)
  }

  lemma EarlyMonthsTold()
    ensures forall i :: 0 <= i < 5 ==> Told(FR_MONTHS[i])
  {
  }

  lemma MiddleMonthsTold()
    ensures forall i :: 5 <= i < 10 ==> Told(FR_MONTHS[i])
  {
  }

  lemma LateMonthsTold()
    ensures forall i :: 10 <= i < 15 ==> Told(FR_MONTHS[i])
  {
  }

  lemma {:induction false} LookupFinds(table: seq<(string, string)>, w: string)
    ensures Lookup(table, w).Some? <==> exists i :: 0 <= i < |table| && table[i].0 == w
    ensures Lookup(table, w).Some? ==>
      exists i :: 0 <= i < |table| && table[i].0 == w && table[i].1 == Lookup(table, w).value
  {
    if table != [] && table[0].0 != w {
      LookupFinds(table[1..], w);
      if i :| 0 <= i < |table| && table[i].0 == w { assert table[1..][i - 1].0 == w; }
    }
  }

  lemma EntryTold(i: nat)
    requires i < 15
    ensures Told(FR_MONTHS[i])
  {
    EarlyMonthsTold();
    MiddleMonthsTold();
    LateMonthsTold();
  }

  ghost predicate Listed(w: string) {
    exists i :: 0 <= i < 15 && FR_MONTHS[i].0 == w
  }

  ghost predicate Spells(w: string, i: nat)
    requires i < 15
  {
    InAnyCase(w, FR_MONTHS[i].0)
  }

  lemma SpelledIsListed(w: string, i: nat)
    requires i < 15 && Spells(w, i)
    ensures Listed(LowerWord(w))
  {
    EntryTold(i);
    MonthTable();
    assert IsMonthEntry(FR_MONTHS[i]);
    LowerWordEquatesCases(w, FR_MONTHS[i].0);
  }

  lemma EarlyNameSpelled(w: string, mm: nat)
    requires NamesMonth(w, mm) && mm <= 4
    ensures exists i: nat :: i < 15 && Spells(w, i)
  {
    assert Spells(w, 0) || Spells(w, 1) || Spells(w, 2) || Spells(w, 3) || Spells(w, 4);
  }

  lemma MiddleNameSpelled(w: string, mm: nat)
    requires NamesMonth(w, mm) && 5 <= mm <= 8
    ensures exists i: nat :: i < 15 && Spells(w, i)
  {
    assert Spells(w, 5) || Spells(w, 6) || Spells(w, 7) || Spells(w, 8) || Spells(w, 9);
  }

  lemma LateNameSpelled(w: string, mm: nat)
    requires NamesMonth(w, mm) && 9 <= mm
    ensures exists i: nat :: i < 15 && Spells(w, i)
  {
    assert Spells(w, 10) || Spells(w, 11) || Spells(w, 12) || Spells(w, 13) || Spells(w, 14);
  }

  lemma NameListed(w: string, mm: nat)
    requires NamesMonth(w, mm)
    ensures Listed(LowerWord(w))
  {
    if mm <= 4 { EarlyNameSpelled(w, mm); } else if mm <= 8 { MiddleNameSpelled(w, mm); } else { LateNameSpelled(w, mm); }
    var i: nat :| i < 15 && Spells(w, i);
    SpelledIsListed(w, i);
  }

  ghost predicate NumberIs(w: string, mm: nat) {
    var mo := MonthNumber(LowerWord(w));
    mo.Some? && ValueOf(mo.value) == mm
  }

  lemma TwoDigitValue(s: string)
    requires |s| == 2 && AllDigits(s)
    ensures ValueOf(s) == 10 * DigitValue(s[0]) + DigitValue(s[1])
  {
    assert s[..1][..0] == [] && ValueOf(s[..1]) == DigitValue(s[0]);
  }

  lemma ListedHasNumber(w: string)
    requires Listed(LowerWord(w))
    ensures |w| >= 2 && NumberIs(w, MonthTold(LowerWord(w)))
  {
    LookupFinds(FR_MONTHS, LowerWord(w));
    var i :| 0 <= i < |FR_MONTHS| && FR_MONTHS[i].0 == LowerWord(w) && FR_MONTHS[i].1 == MonthNumber(LowerWord(w)).value;
    EntryTold(i);
    TwoDigitValue(FR_MONTHS[i].1);
  }

  lemma ListedNames(w: string)
    requires Listed(LowerWord(w))
    ensures |w| >= 2 && NamesMonth(w, MonthTold(LowerWord(w)))
  {
    var i: nat :| i < 15 && FR_MONTHS[i].0 == LowerWord(w);
    EntryTold(i);
    MonthTable();
    assert IsMonthEntry(FR_MONTHS[i]);
    LowerWordEquatesCases(w, FR_MONTHS[i].0);
    if i < 5 { EarlySpelled(w, i); } else if i < 10 { MiddleSpelled(w, i); } else { LateSpelled(w, i); }
  }

  lemma EarlySpelled(w: string, i: nat)
    requires i < 5 && Spells(w, i)
    ensures |FR_MONTHS[i].0| >= 2 && NamesMonth(w, MonthTold(FR_MONTHS[i].0))
  {
  }

  lemma MiddleSpelled(w: string, i: nat)
    requires 5 <= i < 10 && Spells(w, i)
    ensures |FR_MONTHS[i].0| >= 2 && NamesMonth(w, MonthTold(FR_MONTHS[i].0))
  {
  }

  lemma LateSpelled(w: string, i: nat)
    requires 10 <= i < 15 && Spells(w, i)
    ensures |FR_MONTHS[i].0| >= 2 && NamesMonth(w, MonthTold(FR_MONTHS[i].0))
  {
  }

  lemma NameTold(w: string, mm: nat)
    requires NamesMonth(w, mm)
    ensures |w| >= 2 && mm == MonthTold(LowerWord(w))
  {
  }

  /** The table maps the names of the twelve months to their numbers, and nothing else to any. */
  lemma MonthNumberMeans(w: string, mm: nat)
    ensures NamesMonth(w, mm) <==> NumberIs(w, mm)
  {
    if NamesMonth(w, mm) {
      NameListed(w, mm);
      ListedHasNumber(w);
      NameTold(w, mm);
    }
    if NumberIs(w, mm) {
      LookupFinds(FR_MONTHS, LowerWord(w));
      ListedHasNumber(w);
      ListedNames(w);
    }
  }

  lemma NoSpaceInName(w: string)
    requires MonthNumber(LowerWord(w)).Some?
    ensures w != [] && IsPlain(w)
  {
    forall i | 0 <= i < |w| ensures !IsSpace(w[i]) && !IsDigit(w[i]) {
      assert IsMonthLetter(LowerWord(w)[i]) && LowerWord(w)[i] == LowerFr(w[i]);
    }
  }

  lemma DigitsComeApart(ds: string, rest: string)
    requires AllDigits(ds) && rest != [] && !IsDigit(rest[0])
    ensures DigitRun(ds + rest) == |ds| && (ds + rest)[..|ds|] == ds && (ds + rest)[|ds|..] == rest
  {
    var r, all := DigitRun(ds + rest), ds + rest;
    assert forall i :: 0 <= i < |ds| ==> all[i] == ds[i];
    assert all[|ds|] == rest[0];
    assert forall i :: 0 <= i < r ==> all[..r][i] == all[i];
  }

  lemma {:induction false} SpacesComeApart(s: string, rest: string)
    requires AllSpace(s) && rest != [] && !IsSpace(rest[0])
    ensures SpaceRun(s + rest) == |s| && (s + rest)[|s|..] == rest
  {
    if s == [] {
      assert s + rest == rest;
    } else {
      assert (s + rest)[1..] == s[1..] + rest;
      SpacesComeApart(s[1..], rest);
    }
  }

  predicate IsPlain(w: string) { forall i :: 0 <= i < |w| ==> !IsSpace(w[i]) && !IsDigit(w[i]) }

  lemma {:induction false} WordComesApart(w: string, rest: string)
    requires IsPlain(w) && rest != [] && IsSpace(rest[0])
    ensures WordRun(w + rest) == |w| && (w + rest)[..|w|] == w && (w + rest)[|w|..] == rest
  {
    if w == [] {
      assert w + rest == rest;
    } else {
      assert (w + rest)[1..] == w[1..] + rest;
      WordComesApart(w[1..], rest);
    }
  }

  /** Day, white space, month word, white space, year. */
  function Spaced(d: string, s1: string, w: string, s2: string, y: string): string { d + (s1 + (w + (s2 + y))) }

  /** Where each part of a date in words begins. */
  lemma SplitWordsOf(d: string, s1: string, w: string, s2: string, y: string, v: string, u: string, t: string)
    requires AllDigits(d) && AllDigits(y) && y != [] && AllSpace(s1) && AllSpace(s2) && s1 != [] && s2 != []
    requires w != [] && IsPlain(w)
    requires v == s2 + y && u == w + v && t == s1 + u
    ensures SplitWords(d + t) == Some(Fields(d, w, y))
  {
    DigitsComeApart(d, t);
    SpacesComeApart(s1, u);
    WordComesApart(w, v);
    SpacesComeApart(s2, y);
  }

  /** Digits with white space behind them do not begin a date in numbers. */
  lemma NotNumeric(d: string, t: string)
    requires AllDigits(d) && t != [] && IsSpace(t[0])
    ensures SplitNumeric(d + t) == None
  {
    DigitsComeApart(d, t);
    assert (d + t)[|d|] == t[0];
  }

  lemma FormatPlausible(y: string, mo: string, d: string, yy: nat, mm: nat, dd: nat)
    requires AllDigits(y) && AllDigits(mo) && AllDigits(d) && PlausibleDate(yy, mm, dd)
    requires ValueOf(y) == yy && ValueOf(mo) == mm && ValueOf(d) == dd
    ensures FormatIso(y, mo, d) == Some(Iso(yy, mm, dd))
  {
  }

  lemma WordsOnly(s: string)
    requires SplitNumeric(s) == None
    ensures ParseTrimmed(s) == ParseWords(s)
  {
  }

  lemma WordFields(s: string, f: Fields, yy: nat, mm: nat, dd: nat)
    requires SplitWords(s) == Some(f) && PlausibleDate(yy, mm, dd)
    requires 1 <= |f.first| <= 2 && 2 <= |f.third| <= 4 && AllDigits(f.first) && AllDigits(f.third)
    requires NumberIs(f.second, mm) && ValueOf(FullYear(f.third)) == yy && ValueOf(f.first) == dd
    ensures ParseWords(s) == Some(Iso(yy, mm, dd))
  {
    FormatPlausible(FullYear(f.third), MonthNumber(LowerWord(f.second)).value, f.first, yy, mm, dd);
  }

  lemma WordsParse(d: string, dd: nat, s1: string, w: string, mm: nat, s2: string, y: string, yy: nat)
    requires PlausibleDate(yy, mm, dd) && WritesPart(d, dd) && NumberIs(w, mm) && WritesYear(y, yy)
    requires s1 != [] && s2 != [] && AllSpace(s1) && AllSpace(s2)
    ensures ParseTrimmed(Spaced(d, s1, w, s2, y)) == Some(Iso(yy, mm, dd))
  {
    var v := s2 + y;
    var u := w + v;
    var t := s1 + u;
    PartValue(d, dd);
    YearValue(y, yy);
    NoSpaceInName(w);
    SplitWordsOf(d, s1, w, s2, y, v, u, t);
    NotNumeric(d, t);
    WordsOnly(d + t);
    WordFields(d + t, Fields(d, w, y), yy, mm, dd);
  }

  /** .. or with the month in words, and any white space between the parts. */
  lemma WordDatesParse(pre: string, d: string, dd: nat, s1: string, w: string, mm: nat, s2: string, y: string, yy: nat,
                       post: string)
    requires PlausibleDate(yy, mm, dd) && WritesPart(d, dd) && NamesMonth(w, mm) && WritesYear(y, yy)
    requires s1 != [] && s2 != [] && AllSpace(s1) && AllSpace(s2) && AllSpace(pre) && AllSpace(post)
    ensures ParseToIso(pre + Spaced(d, s1, w, s2, y) + post) == Some(Iso(yy, mm, dd))
  {
    MonthNumberMeans(w, mm);
    WordsParse(d, dd, s1, w, mm, s2, y, yy);
    PartValue(d, dd);
    YearValue(y, yy);
    EndsOf(d, s1, w, s2, y);
    TrimOf(pre, Spaced(d, s1, w, s2, y), post);
  }

  lemma EndsOf(d: string, s1: string, w: string, s2: string, y: string)
    requires d != [] && y != []
    ensures var s := Spaced(d, s1, w, s2, y); s != [] && s[0] == d[0] && s[|s| - 1] == y[|y| - 1]
  {
  }

  lemma IsoIsJoined(yy: nat, mm: nat, dd: nat)
    ensures "" + Joined(Pad(yy, 4), '-', Pad(mm, 2), '-', Pad(dd, 2)) + "" == Iso(yy, mm, dd)
  {
  }

  // ------------------------------------------------------ nothing else is a date

  ghost predicate WrittenYearFirst(s: string, yy: nat, mm: nat, dd: nat) {
    exists p, m, q, d {:trigger Joined(Pad(yy, 4), p, m, q, d)} ::
      && IsDateSeparator(p) && IsDateSeparator(q) && WritesPart(m, mm) && WritesPart(d, dd)
      && s == Joined(Pad(yy, 4), p, m, q, d)
  }

  ghost predicate WrittenDayFirst(s: string, yy: nat, mm: nat, dd: nat) {
    exists d, p, m, q, y {:trigger Joined(d, p, m, q, y)} ::
      && IsDateSeparator(p) && IsDateSeparator(q) && WritesPart(m, mm) && WritesPart(d, dd) && WritesYear(y, yy)
      && s == Joined(d, p, m, q, y)
  }

  ghost predicate WrittenInWords(s: string, yy: nat, mm: nat, dd: nat) {
    exists d, s1, w, s2, y {:trigger Spaced(d, s1, w, s2, y)} ::
      && s1 != [] && s2 != [] && AllSpace(s1) && AllSpace(s2)
      && WritesPart(d, dd) && NamesMonth(w, mm) && WritesYear(y, yy)
      && s == Spaced(d, s1, w, s2, y)
  }

  /** `s` writes a plausible date in one of the three ways. */
  ghost predicate WritesDate(s: string, yy: nat, mm: nat, dd: nat) {
    && PlausibleDate(yy, mm, dd)
    && (WrittenYearFirst(s, yy, mm, dd) || WrittenDayFirst(s, yy, mm, dd) || WrittenInWords(s, yy, mm, dd))
  }

  lemma {:induction false} PadOfValue(s: string)
    requires AllDigits(s)
    ensures Pad(ValueOf(s), |s|) == s
  {
    if s != [] { PadOfValue(s[..|s| - 1]); }
  }

  lemma PartText(s: string)
    requires AllDigits(s) && 1 <= |s| <= 2
    ensures WritesPart(s, ValueOf(s))
  {
    PadOfValue(s);
    if |s| == 1 {
      assert s[..0] == [] && ValueOf(s) == DigitValue(s[0]);
    } else {
      assert s[..1][..0] == [] && ValueOf(s[..1]) == DigitValue(s[0]);
    }
  }

  lemma ThreeDigitsAreNoYear(s: string)
    requires AllDigits(s) && |s| == 3
    ensures ValueOf(s) < 1000
  {
    PartText(s[..2]);
  }

  lemma TwoDigitYear(s: string)
    requires AllDigits(s) && |s| == 2
    ensures ValueOf(FullYear(s)) == 2000 + ValueOf(s) && ValueOf(s) < 100
  {
    PartText(s);
    ValueOfTwenty();
    ValueOfPad2After("20", ValueOf(s));
    PadOfValue(s);
  }

  lemma YearText(s: string)
    requires AllDigits(s) && 2 <= |s| <= 4 && 1990 <= ValueOf(FullYear(s)) <= 2099
    ensures WritesYear(s, ValueOf(FullYear(s)))
  {
    PadOfValue(s);
    if |s| == 2 {
      TwoDigitYear(s);
    } else if |s| == 3 {
      ThreeDigitsAreNoYear(s);
    }
  }

  lemma Cut(s: string, a: nat)
    requires a <= |s|
    ensures s == s[..a] + s[a..]
  {
  }

  lemma CutAround(s: string, a: nat)
    requires a < |s|
    ensures s == s[..a] + [s[a]] + s[a + 1..]
  {
  }

  lemma SplitNumericJoins(s: string) returns (p: char, q: char)
    requires SplitNumeric(s).Some?
    ensures var f := SplitNumeric(s).value;
      IsDateSeparator(p) && IsDateSeparator(q) && s == Joined(f.first, p, f.second, q, f.third)
  {
    var a := DigitRun(s);
    var t := s[a + 1..];
    var b := DigitRun(t);
    p, q := s[a], t[b];
    CutAround(s, a);
    CutAround(t, b);
    assert s[..a] + [p] + (t[..b] + [q] + t[b + 1..]) == Joined(s[..a], p, t[..b], q, t[b + 1..]);
  }

  lemma SpaceRunIsSpace(s: string)
    ensures AllSpace(s[..SpaceRun(s)])
  {
    SpaceRunEnds(s);
  }

  lemma SplitWordsJoins(s: string) returns (s1: string, s2: string)
    requires SplitWords(s).Some?
    ensures s1 != [] && s2 != [] && AllSpace(s1) && AllSpace(s2)
    ensures var f := SplitWords(s).value; s == Spaced(f.first, s1, f.second, s2, f.third)
  {
    var a := DigitRun(s);
    var t := s[a..];
    var i := SpaceRun(t);
    var u := t[i..];
    var b := WordRun(u);
    var v := u[b..];
    var j := SpaceRun(v);
    s1, s2 := t[..i], v[..j];
    SpaceRunIsSpace(t);
    SpaceRunIsSpace(v);
    Cut(s, a);
    Cut(t, i);
    Cut(u, b);
    Cut(v, j);
  }

  lemma FormattedIsPlausible(y: string, mo: string, d: string)
    requires AllDigits(y) && AllDigits(mo) && AllDigits(d) && FormatIso(y, mo, d).Some?
    ensures PlausibleDate(ValueOf(y), ValueOf(mo), ValueOf(d))
  {
  }

  lemma YearFirstIsWritten(s: string, f: Fields)
    requires SplitNumeric(s) == Some(f) && DigitFields(f) && YearFirst(f) && FormatIso(f.first, f.second, f.third).Some?
    ensures exists yy: nat, mm: nat, dd: nat :: WritesDate(s, yy, mm, dd)
  {
    var p, q := SplitNumericJoins(s);
    PadOfValue(f.first);
    PartText(f.second);
    PartText(f.third);
    FormattedIsPlausible(f.first, f.second, f.third);
    assert s == Joined(Pad(ValueOf(f.first), 4), p, f.second, q, f.third);
    assert WrittenYearFirst(s, ValueOf(f.first), ValueOf(f.second), ValueOf(f.third));
    assert WritesDate(s, ValueOf(f.first), ValueOf(f.second), ValueOf(f.third));
  }

  lemma DayFirstIsWritten(s: string, f: Fields)
    requires SplitNumeric(s) == Some(f) && DigitFields(f) && DayFirst(f)
    requires FormatIso(FullYear(f.third), f.second, f.first).Some?
    ensures exists yy: nat, mm: nat, dd: nat :: WritesDate(s, yy, mm, dd)
  {
    var p, q := SplitNumericJoins(s);
    PartText(f.first);
    PartText(f.second);
    FormattedIsPlausible(FullYear(f.third), f.second, f.first);
    YearText(f.third);
    assert s == Joined(f.first, p, f.second, q, f.third);
    assert WrittenDayFirst(s, ValueOf(FullYear(f.third)), ValueOf(f.second), ValueOf(f.first));
    assert WritesDate(s, ValueOf(FullYear(f.third)), ValueOf(f.second), ValueOf(f.first));
  }

  lemma WordsAreWritten(s: string)
    requires ParseWords(s).Some?
    ensures exists yy: nat, mm: nat, dd: nat :: WritesDate(s, yy, mm, dd)
  {
    var f := SplitWords(s).value;
    var s1, s2 := SplitWordsJoins(s);
    var mo := MonthNumber(LowerWord(f.second)).value;
    MonthNumberMeans(f.second, ValueOf(mo));
    PartText(f.first);
    YearText(f.third);
    assert s == Spaced(f.first, s1, f.second, s2, f.third);
    assert WritesDate(s, ValueOf(FullYear(f.third)), ValueOf(mo), ValueOf(f.first));
  }

  lemma WrittenDateParses(s: string, yy: nat, mm: nat, dd: nat)
    requires WritesDate(s, yy, mm, dd)
    ensures ParseTrimmed(s) == Some(Iso(yy, mm, dd))
  {
    if WrittenYearFirst(s, yy, mm, dd) {
      var p, m, q, d :| IsDateSeparator(p) && IsDateSeparator(q) && WritesPart(m, mm) && WritesPart(d, dd)
                        && s == Joined(Pad(yy, 4), p, m, q, d);
      YearFirstParses(yy, p, m, mm, q, d, dd);
    } else if WrittenDayFirst(s, yy, mm, dd) {
      var d, p, m, q, y :| IsDateSeparator(p) && IsDateSeparator(q) && WritesPart(m, mm) && WritesPart(d, dd)
                           && WritesYear(y, yy) && s == Joined(d, p, m, q, y);
      DayFirstParses(d, dd, p, m, mm, q, y, yy);
    } else {
      var d, s1, w, s2, y :| s1 != [] && s2 != [] && AllSpace(s1) && AllSpace(s2) && WritesPart(d, dd)
                             && NamesMonth(w, mm) && WritesYear(y, yy) && s == Spaced(d, s1, w, s2, y);
      MonthNumberMeans(w, mm);
      WordsParse(d, dd, s1, w, mm, s2, y, yy);
    }
  }

  /** parseToIso accepts exactly the texts that, trimmed, write a plausible date in one of
      the three ways, and answers with that date: its year, month and day with dashes. */
  lemma ParsesExactlyDates(s: string)
    ensures ParseToIso(s).Some? <==> exists yy: nat, mm: nat, dd: nat :: WritesDate(Trim(s), yy, mm, dd)
    ensures forall yy: nat, mm: nat, dd: nat :: WritesDate(Trim(s), yy, mm, dd) ==>
      ParseToIso(s) == Some(Pad(yy, 4) + "-" + Pad(mm, 2) + "-" + Pad(dd, 2))
  {
    var core := Trim(s);
    forall yy: nat, mm: nat, dd: nat | WritesDate(core, yy, mm, dd) ensures ParseToIso(s) == Some(Iso(yy, mm, dd)) {
      WrittenDateParses(core, yy, mm, dd);
    }
    if ParseToIso(s).Some? {
      var n := SplitNumeric(core);
      if n.Some? && YearFirst(n.value) { YearFirstIsWritten(core, n.value); }
      else if n.Some? && DayFirst(n.value) { DayFirstIsWritten(core, n.value); }
      else { WordsAreWritten(core); }
    }
  }

  /** parseToIso is the identity on its own results. */
  lemma ParseToIsoIdempotent(s: string)
    requires ParseToIso(s).Some?
    ensures ParseToIso(ParseToIso(s).value) == ParseToIso(s)
  {
    var yy: nat, mm: nat, dd: nat :| PlausibleDate(yy, mm, dd) && ParseToIso(s).value == Iso(yy, mm, dd);
    YearFirstDatesParse("", yy, '-', Pad(mm, 2), mm, '-', Pad(dd, 2), dd, "");
    IsoIsJoined(yy, mm, dd);
  }
}
