/**
 The parts of JavaScript's string library the modelled code leans on: the
 default `Array.prototype.sort` order, `Array.prototype.join`, and `toLowerCase`
 on ASCII letters.

 A `string` here is a sequence of Unicode scalar values. JavaScript compares
 strings by UTF-16 code units, which puts the supplementary planes between
 U+D7FF and U+E000; `Rank` reproduces that order.
 */
module JsStrings {

  // ---------------------------------------------------------------- ordering

  /** The UTF-16 code units of one scalar value. */
  function CodeUnits(c: char): seq<int> {
    var n := c as int;
    if n < 0x10000 then [n]
    else [0xD800 + (n - 0x10000) / 0x400, 0xDC00 + (n - 0x10000) % 0x400]
  }

  /** One unit in the basic plane; above it a high and a low surrogate, ten bits each. */
  lemma CodeUnitsDecode(c: char)
    ensures var u := CodeUnits(c);
      || (u == [c as int] && c as int < 0x10000)
      || (|u| == 2 && 0xD800 <= u[0] < 0xDC00 && 0xDC00 <= u[1] < 0xE000
          && c as int == 0x10000 + 0x400 * (u[0] - 0xD800) + (u[1] - 0xDC00))
  {
  }

  /** The position of a scalar value in UTF-16 code-unit order. */
  function Rank(c: char): int {
    var n := c as int;
    if n < 0xD800 then n
    else if n < 0x10000 then n + 0x100000
    else n - 0x10000 + 0xD800
  }

  predicate UnitsLess(a: seq<int>, b: seq<int>) {
    if b == [] then false
    else if a == [] then true
    else a[0] < b[0] || (a[0] == b[0] && UnitsLess(a[1..], b[1..]))
  }

  /** `Rank` is the order JavaScript's `<` uses on single characters. */
  lemma RankIsCodeUnitOrder(c: char, d: char)
    ensures Rank(c) < Rank(d) <==> UnitsLess(CodeUnits(c), CodeUnits(d))
    ensures Rank(c) == Rank(d) <==> c == d
  {
    var a, b := CodeUnits(c), CodeUnits(d);
    assert UnitsLess(a[1..], b[1..]) <==>
           (|b| == 2 && (|a| == 1 || a[1] < b[1])) by {
      if |a| == 2 && |b| == 2 { assert a[1..] == [a[1]] && b[1..] == [b[1]]; }
    }
  }

  predicate Less(a: string, b: string) {
    if b == [] then false
    else if a == [] then true
    else if a[0] == b[0] then Less(a[1..], b[1..])
    else Rank(a[0]) < Rank(b[0])
  }

  lemma {:induction false} LessTrichotomy(a: string, b: string)
    ensures a == b || Less(a, b) || Less(b, a)
    ensures !(Less(a, b) && Less(b, a))
    ensures a == b ==> !Less(a, b)
  {
    if a != [] && b != [] {
      RankIsCodeUnitOrder(a[0], b[0]);
      LessTrichotomy(a[1..], b[1..]);
      if a[0] == b[0] && a[1..] == b[1..] {
        assert a == [a[0]] + a[1..] == b;
      }
    }
  }

  lemma {:induction false} LessTransitive(a: string, b: string, c: string)
    requires Less(a, b) && Less(b, c)
    ensures Less(a, c)
  {
    if a != [] {
      RankIsCodeUnitOrder(a[0], c[0]);
      if a[0] == b[0] == c[0] {
        LessTransitive(a[1..], b[1..], c[1..]);
      }
    }
  }

  /** `a < b` told without recursion: a proper prefix, or the smaller character where the
      two first differ. */
  ghost predicate Precedes(a: string, b: string) {
    || a < b
    || exists i {:trigger DiffersFirstAt(a, b, i)} :: DiffersFirstAt(a, b, i)
  }

  ghost predicate DiffersFirstAt(a: string, b: string, i: int) {
    0 <= i < |a| && i < |b| && a[..i] == b[..i] && Rank(a[i]) < Rank(b[i])
  }

  lemma HeadsAgreeBefore(a: string, b: string, i: int)
    requires DiffersFirstAt(a, b, i) && i > 0
    ensures a[0] == b[0]
  {
    assert a[..i][0] == a[0] && b[..i][0] == b[0];
  }

  lemma {:induction false} LessIsPrecedes(a: string, b: string)
    ensures Less(a, b) <==> Precedes(a, b)
  {
    if a == [] || b == [] {
    } else if a[0] == b[0] {
      LessIsPrecedes(a[1..], b[1..]);
      assert a == [a[0]] + a[1..] && b == [b[0]] + b[1..];
      assert a < b <==> a[1..] < b[1..];
      if i :| DiffersFirstAt(a[1..], b[1..], i) {
        assert a[..i + 1] == [a[0]] + a[1..][..i] && b[..i + 1] == [b[0]] + b[1..][..i];
        assert DiffersFirstAt(a, b, i + 1);
      }
      if i :| DiffersFirstAt(a, b, i) {
        assert i > 0;
        assert a[1..][..i - 1] == a[..i][1..] && b[1..][..i - 1] == b[..i][1..];
        assert DiffersFirstAt(a[1..], b[1..], i - 1);
      }
    } else {
      RankIsCodeUnitOrder(a[0], b[0]);
      assert Rank(a[0]) < Rank(b[0]) ==> DiffersFirstAt(a, b, 0);
      forall i | DiffersFirstAt(a, b, i) ensures i == 0 { if i > 0 { HeadsAgreeBefore(a, b, i); } }
    }
  }

  /** The UTF-16 code units of a text. */
  function Encode(s: string): seq<int> {
    if s == [] then [] else CodeUnits(s[0]) + Encode(s[1..])
  }

  lemma UnitsOfOneMore(c: char, x: seq<int>, d: char, y: seq<int>)
    ensures c == d ==> (UnitsLess(CodeUnits(c) + x, CodeUnits(d) + y) <==> UnitsLess(x, y))
    ensures c != d ==> (UnitsLess(CodeUnits(c) + x, CodeUnits(d) + y) <==> Rank(c) < Rank(d))
  {
    var a, b := CodeUnits(c) + x, CodeUnits(d) + y;
    if c as int < 0x10000 {
      assert a == [c as int] + x && a[1..] == x;
    } else {
      assert a[1..] == [CodeUnits(c)[1]] + x && a[1..][1..] == x;
    }
    if d as int < 0x10000 {
      assert b == [d as int] + y && b[1..] == y;
    } else {
      assert b[1..] == [CodeUnits(d)[1]] + y && b[1..][1..] == y;
    }
  }

  /** It is the order JavaScript's `<` gives to the code units. */
  lemma {:induction false} LessIsCodeUnitOrder(a: string, b: string)
    ensures Less(a, b) <==> UnitsLess(Encode(a), Encode(b))
  {
    if a != [] && b != [] {
      UnitsOfOneMore(a[0], Encode(a[1..]), b[0], Encode(b[1..]));
      LessIsCodeUnitOrder(a[1..], b[1..]);
    }
  }

  // ----------------------------------------------------------------- sorting

  ghost predicate Sorted(s: seq<string>) {
    forall i, j :: 0 <= i < j < |s| ==> !Less(s[j], s[i])
  }

  function Insert(x: string, s: seq<string>): seq<string> {
    if s == [] || !Less(s[0], x) then [x] + s else [s[0]] + Insert(x, s[1..])
  }

  /** `s.sort()` with the default comparator. */
  function Sort(s: seq<string>): seq<string> {
    if s == [] then [] else Insert(s[0], Sort(s[1..]))
  }

  lemma {:induction false} InsertCorrect(x: string, s: seq<string>)
    requires Sorted(s)
    ensures Sorted(Insert(x, s))
    ensures multiset(Insert(x, s)) == multiset{x} + multiset(s)
  {
    if s == [] {
    } else if !Less(s[0], x) {
      forall j | 0 <= j < |s| ensures !Less(s[j], x) {
        assert j > 0 ==> !Less(s[j], s[0]);
        LessTrichotomy(s[0], x);
        if Less(s[j], x) && Less(x, s[0]) { LessTransitive(s[j], x, s[0]); }
      }
    } else {
      InsertCorrect(x, s[1..]);
      assert s == [s[0]] + s[1..];
      LessTrichotomy(s[0], x);
      var t := Insert(x, s[1..]);
      forall j | 0 <= j < |t| ensures !Less(t[j], s[0]) {
        assert t[j] in multiset(t);
        if t[j] != x {
          var k :| 0 <= k < |s[1..]| && s[1..][k] == t[j];
          assert s[k + 1] == t[j];
        }
      }
    }
  }

  lemma {:induction false} SortCorrect(s: seq<string>)
    ensures Sorted(Sort(s))
    ensures multiset(Sort(s)) == multiset(s)
    ensures |Sort(s)| == |s|
  {
    if s == [] {
    } else {
      SortCorrect(s[1..]);
      InsertCorrect(s[0], Sort(s[1..]));
      assert s == [s[0]] + s[1..];
      assert |multiset(Sort(s))| == |multiset(s)|;
    }
  }

  lemma SortedHeadIsLeast(s: seq<string>, x: string)
    requires Sorted(s) && s != [] && x in multiset(s)
    ensures !Less(x, s[0])
  {
    var i :| 0 <= i < |s| && s[i] == x;
    LessTrichotomy(s[0], s[0]);
  }

  lemma MultisetTail<T>(s: seq<T>)
    requires s != []
    ensures multiset(s[1..]) == multiset(s) - multiset{s[0]}
    ensures s[0] in multiset(s)
  {
    assert s == [s[0]] + s[1..];
  }

  /** A sorted arrangement is determined by its elements, so any correct sort
      returns what `Sort` returns. */
  lemma {:induction false} SortedUnique(a: seq<string>, b: seq<string>)
    requires Sorted(a) && Sorted(b) && multiset(a) == multiset(b)
    ensures a == b
  {
    assert |a| == |multiset(a)| == |multiset(b)| == |b|;
    if a == [] {
    } else {
      MultisetTail(a);
      MultisetTail(b);
      SortedHeadIsLeast(a, b[0]);
      SortedHeadIsLeast(b, a[0]);
      LessTrichotomy(a[0], b[0]);
      SortedUnique(a[1..], b[1..]);
      assert a == [a[0]] + a[1..] && b == [b[0]] + b[1..];
    }
  }

  lemma SortDependsOnlyOnElements(a: seq<string>, b: seq<string>)
    requires multiset(a) == multiset(b)
    ensures Sort(a) == Sort(b)
  {
    SortCorrect(a);
    SortCorrect(b);
    SortedUnique(Sort(a), Sort(b));
  }

  // ------------------------------------------------------------------- lists

  ghost predicate Distinct<T(!new)>(s: seq<T>) {
    forall i, j :: 0 <= i < j < |s| ==> s[i] != s[j]
  }

  ghost function Elements<T>(s: seq<T>): set<T> {
    set x | x in s
  }

  lemma {:induction false} DistinctMultiset<T(!new)>(s: seq<T>)
    requires Distinct(s)
    ensures multiset(s) == multiset(Elements(s))
    ensures |Elements(s)| == |s|
  {
    if s == [] {
    } else {
      assert s == [s[0]] + s[1..];
      assert s[0] !in s[1..];
      DistinctMultiset(s[1..]);
      assert Elements(s) == {s[0]} + Elements(s[1..]);
    }
  }

  lemma NoRepetition<T(!new)>(s: seq<T>)
    requires forall x {:trigger multiset(s)[x]} :: multiset(s)[x] <= 1
    ensures Distinct(s)
  {
    forall i, j | 0 <= i < j < |s| ensures s[i] != s[j] {
      var m := multiset(s)[s[i]];
      assert s == s[..i] + [s[i]] + s[i + 1..j] + [s[j]] + s[j + 1..];
    }
  }

  lemma PermutationKeepsDistinct<T(!new)>(a: seq<T>, b: seq<T>)
    requires multiset(a) == multiset(b) && Distinct(a)
    ensures Distinct(b) && |b| == |a| && forall x :: x in a <==> x in b
  {
    assert |b| == |multiset(b)| == |multiset(a)|;
    DistinctMultiset(a);
    NoRepetition(b);
    forall x ensures x in a <==> x in b { assert x in multiset(a) <==> x in multiset(b); }
  }

  // -------------------------------------------------------------------- join

  function Join(s: seq<string>, sep: char): string {
    if s == [] then ""
    else if |s| == 1 then s[0]
    else s[0] + [sep] + Join(s[1..], sep)
  }

  ghost predicate Free(x: string, sep: char) { sep !in x }

  ghost predicate AllFree(s: seq<string>, sep: char) {
    forall i :: 0 <= i < |s| ==> Free(s[i], sep)
  }

  /** Two separator-free heads followed by a separator (or by nothing) agree. */
  lemma {:induction false} HeadsAgree(a: string, x: string, b: string, y: string, sep: char)
    requires Free(a, sep) && Free(b, sep)
    requires x == [] || x[0] == sep
    requires y == [] || y[0] == sep
    requires a + x == b + y
    ensures a == b && x == y
  {
    var ax, bz := a + x, b + y;
    assert |a| < |ax| ==> ax[|a|] == sep;
    assert |b| < |bz| ==> bz[|b|] == sep;
    assert forall k :: 0 <= k < |a| ==> ax[k] == a[k] && a[k] != sep;
    assert forall k :: 0 <= k < |b| ==> bz[k] == b[k] && b[k] != sep;
    assert |a| == |b|;
    assert a == ax[..|a|] && b == bz[..|b|];
    assert x == ax[|a|..] && y == bz[|b|..];
  }

  /** On separator-free, non-empty lists `join` loses nothing. */
  lemma {:induction false} JoinInjective(a: seq<string>, b: seq<string>, sep: char)
    requires a != [] && b != [] && AllFree(a, sep) && AllFree(b, sep)
    requires Join(a, sep) == Join(b, sep)
    ensures a == b
  {
    var x := if |a| == 1 then [] else [sep] + Join(a[1..], sep);
    var y := if |b| == 1 then [] else [sep] + Join(b[1..], sep);
    assert Free(a[0], sep) && Free(b[0], sep);
    assert Join(a, sep) == a[0] + x && Join(b, sep) == b[0] + y;
    HeadsAgree(a[0], x, b[0], y, sep);
    if |a| > 1 && |b| > 1 {
      assert x[1..] == Join(a[1..], sep) && y[1..] == Join(b[1..], sep);
      forall i | 0 <= i < |a[1..]| ensures Free(a[1..][i], sep) { assert Free(a[i + 1], sep); }
      forall i | 0 <= i < |b[1..]| ensures Free(b[1..][i], sep) { assert Free(b[i + 1], sep); }
      JoinInjective(a[1..], b[1..], sep);
    }
    assert a == [a[0]] + a[1..] && b == [b[0]] + b[1..];
  }

  // ------------------------------------------------------------- white space

  /** `\s`, which is also what `trim` removes. */
  predicate IsSpace(c: char) {
    var u := c as int;
    9 <= u <= 13 || u == 32 || u == 160 || u == 0x1680 || 0x2000 <= u <= 0x200a
    || u == 0x2028 || u == 0x2029 || u == 0x202f || u == 0x205f || u == 0x3000 || u == 0xfeff
  }

  lemma SpaceCodes(c: char)
    ensures IsSpace(c) <==>
      c as int in {9, 10, 11, 12, 13, 32, 160, 0x1680, 0x2000, 0x2001, 0x2002, 0x2003, 0x2004, 0x2005, 0x2006, 0x2007,
                   0x2008, 0x2009, 0x200a, 0x2028, 0x2029, 0x202f, 0x205f, 0x3000, 0xfeff}
  {
  }

  /** How many characters at the front are white space. */
  function SpaceRun(s: string): (r: nat)
    ensures r <= |s|
  {
    if s == [] || !IsSpace(s[0]) then 0 else 1 + SpaceRun(s[1..])
  }

  lemma {:induction false} SpaceRunEnds(s: string)
    ensures forall i :: 0 <= i < SpaceRun(s) ==> IsSpace(s[i])
    ensures SpaceRun(s) < |s| ==> !IsSpace(s[SpaceRun(s)])
  {
    if s != [] && IsSpace(s[0]) {
      SpaceRunEnds(s[1..]);
      assert forall i :: 1 <= i < SpaceRun(s) ==> s[i] == s[1..][i - 1];
    }
  }

  function TrimStart(s: string): string {
    if s != [] && IsSpace(s[0]) then TrimStart(s[1..]) else s
  }

  function TrimEnd(s: string): string {
    if s != [] && IsSpace(s[|s| - 1]) then TrimEnd(s[..|s| - 1]) else s
  }

  /** `s.trim()`. */
  function Trim(s: string): string { TrimEnd(TrimStart(s)) }

  // --------------------------------------------------------------- lowercase

  function LowerChar(c: char): char {
    if 'A' <= c <= 'Z' then (c as int + 32) as char else c
  }

  /** `toLowerCase` on the ASCII text the modelled code applies it to. */
  function Lower(s: string): string {
    seq(|s|, i requires 0 <= i < |s| => LowerChar(s[i]))
  }

  /** The same character, or the same letter in the other case (A to Z are 65 to 90). */
  predicate SameLetter(c: char, d: char) {
    || c == d
    || (65 <= c as int <= 90 && d as int == c as int + 32)
    || (65 <= d as int <= 90 && c as int == d as int + 32)
  }

  predicate SameUpToCase(a: string, b: string) {
    |a| == |b| && forall i :: 0 <= i < |a| ==> SameLetter(a[i], b[i])
  }

  lemma LowerCharSame(c: char, d: char)
    ensures LowerChar(c) == LowerChar(d) <==> SameLetter(c, d)
    ensures SameLetter(LowerChar(c), c) && !(65 <= LowerChar(c) as int <= 90)
  {
  }

  /** Lower-casing equates exactly the texts that differ in letter case alone .. */
  lemma LowerEquatesCases(a: string, b: string)
    ensures Lower(a) == Lower(b) <==> SameUpToCase(a, b)
  {
    forall i | 0 <= i < |a| && i < |b| ensures Lower(a)[i] == Lower(b)[i] <==> SameLetter(a[i], b[i]) {
      LowerCharSame(a[i], b[i]);
    }
    if SameUpToCase(a, b) { assert Lower(a) == Lower(b); }
    if Lower(a) == Lower(b) {
      forall i | 0 <= i < |a| ensures SameLetter(a[i], b[i]) { assert Lower(a)[i] == Lower(b)[i]; }
    }
  }

  /** .. and changes nothing else, but leaves no capital. */
  lemma LowerHasNoCapitals(s: string)
    ensures SameUpToCase(Lower(s), s)
    ensures forall i :: 0 <= i < |s| ==> !(65 <= Lower(s)[i] as int <= 90)
  {
    forall i | 0 <= i < |s| ensures SameLetter(Lower(s)[i], s[i]) && !(65 <= Lower(s)[i] as int <= 90) {
      LowerCharSame(s[i], s[i]);
    }
  }
}
