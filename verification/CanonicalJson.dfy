/**
 `canonicalJson` and `sortKeysDeep` (apps/worker-minfi-api/src/canonical-json.ts):
 sort the keys of every object by UTF-16 code units, as section 3.2.3 of RFC 8785
 does, then serialise without white space.

 An object is the list of its members in insertion order. A number is the text
 `JSON.stringify` prints for it.
 */
module CanonicalJson {
  import opened JsStrings

  datatype Member = Member(key: string, value: Json)

  datatype Json =
    | Null
    | Bool(b: bool)
    | Num(text: string)
    | Str(s: string)
    | Arr(elems: seq<Json>)
    | Obj(members: seq<Member>)

  predicate NumberChar(c: char) { '0' <= c <= '9' || c == '-' || c == '+' || c == '.' || c == 'e' }

  predicate NumberText(s: string) {
    s != [] && ('0' <= s[0] <= '9' || s[0] == '-') && forall i :: 0 <= i < |s| ==> NumberChar(s[i])
  }

  ghost predicate AllDigits(s: string) { s != [] && forall i :: 0 <= i < |s| ==> 48 <= s[i] as int <= 57 }

  /** Whatever JSON.stringify prints for a finite number is such a text: a sign, digits, a
      fraction, an exponent. */
  lemma NumeralIsNumberText(sign: string, whole: string, fraction: string, exponent: string)
    requires (sign == "" || sign == "-") && AllDigits(whole)
    requires fraction == "" || (|fraction| > 1 && fraction[0] == '.' && AllDigits(fraction[1..]))
    requires exponent == "" ||
             (|exponent| > 2 && exponent[0] == 'e' && exponent[1] in "+-" && AllDigits(exponent[2..]))
    ensures NumberText(sign + whole + fraction + exponent)
  {
    assert forall i :: 1 <= i < |fraction| ==> fraction[i] == fraction[1..][i - 1];
    assert forall i :: 2 <= i < |exponent| ==> exponent[i] == exponent[2..][i - 2];
    assert forall i :: 0 <= i < |fraction| ==> NumberChar(fraction[i]);
    assert forall i :: 0 <= i < |exponent| ==> NumberChar(exponent[i]);
  }

  function Keys(ms: seq<Member>): (r: seq<string>)
    ensures |r| == |ms|
  {
    seq(|ms|, i requires 0 <= i < |ms| => ms[i].key)
  }

  /** A value JSON.stringify can meet: numbers are numbers and no object repeats a key. */
  ghost predicate WellFormed(v: Json) {
    match v
    case Num(text) => NumberText(text)
    case Arr(es) => forall i :: 0 <= i < |es| ==> WellFormed(es[i])
    case Obj(ms) => Distinct(Keys(ms)) && forall i :: 0 <= i < |ms| ==> WellFormed(ms[i].value)
    case _ => true
  }

  /** The position of a key, or the number of members when it is absent. */
  function Pos(ms: seq<Member>, k: string): (r: nat)
    ensures r <= |ms|
    ensures r < |ms| ==> ms[r].key == k
    ensures r == |ms| ==> forall i :: 0 <= i < |ms| ==> ms[i].key != k
  {
    if ms == [] || ms[0].key == k then 0 else 1 + Pos(ms[1..], k)
  }

  lemma KeysDiffer(ms: seq<Member>, i: nat, j: nat)
    requires Distinct(Keys(ms)) && i < |ms| && j < |ms| && i != j
    ensures ms[i].key != ms[j].key
  {
    var ks := Keys(ms);
    assert ks[i] == ms[i].key && ks[j] == ms[j].key;
  }

  lemma PosOfKey(ms: seq<Member>, i: nat)
    requires Distinct(Keys(ms)) && i < |ms|
    ensures Pos(ms, ms[i].key) == i
  {
    var j := Pos(ms, ms[i].key);
    if j != i { KeysDiffer(ms, j, i); }
  }

  // ---------------------------------------------- equality up to key order

  ghost predicate Same(a: Json, b: Json)
    decreases a
  {
    match a
    case Arr(es) => b.Arr? && |es| == |b.elems| && forall i :: 0 <= i < |es| ==> Same(es[i], b.elems[i])
    case Obj(ms) =>
      && b.Obj? && |ms| == |b.members|
      && forall i :: 0 <= i < |ms| ==>
           var j := Pos(b.members, ms[i].key);
           j < |b.members| && Same(ms[i].value, b.members[j].value)
    case _ => a == b
  }

  // --------------------------------------------------------------- sortKeysDeep

  function SortDeep(v: Json): Json {
    match v
    case Arr(es) => Arr(seq(|es|, i requires 0 <= i < |es| => SortDeep(es[i])))
    case Obj(ms) =>
      var ks := Sort(Keys(ms));
      Obj(seq(|ks|, i requires 0 <= i < |ks| =>
        var j := Pos(ms, ks[i]);
        Member(ks[i], if j < |ms| then SortDeep(ms[j].value) else Null)))
    case _ => v
  }

  method SortKeysDeep(v: Json) returns (r: Json)
    ensures r == SortDeep(v)
    decreases v
  {
    match v {
      case Arr(es) =>
        var mapped := [];
        for n := 0 to |es|
          invariant mapped == SortDeep(v).elems[..n]
        {
          var e := SortKeysDeep(es[n]);
          mapped := mapped + [e];
        }
        return Arr(mapped);
      case Obj(ms) =>
        var ks := Sort(Keys(ms));
        SortCorrect(Keys(ms));
        var out := [];
        for n := 0 to |ks|
          invariant out == SortDeep(v).members[..n]
        {
          KeyPresent(ms, n);
          MembersOfOneMore(ms, n);
          var j := Pos(ms, ks[n]);
          var value := SortKeysDeep(ms[j].value);
          out := out + [Member(ks[n], value)];
        }
        return Obj(out);
      case _ => return v;
    }
  }

  lemma MembersOfOneMore(ms: seq<Member>, n: nat)
    requires n < |Sort(Keys(ms))| == |ms| && Pos(ms, Sort(Keys(ms))[n]) < |ms|
    ensures var out, k := SortDeep(Obj(ms)).members, Sort(Keys(ms))[n];
      n < |out| && out[..n + 1] == out[..n] + [Member(k, SortDeep(ms[Pos(ms, k)].value))]
  {
  }

  lemma KeyPresent(ms: seq<Member>, n: nat)
    requires n < |Sort(Keys(ms))|
    ensures Pos(ms, Sort(Keys(ms))[n]) < |ms|
  {
    var k := Sort(Keys(ms))[n];
    SortCorrect(Keys(ms));
    assert k in multiset(Sort(Keys(ms)));
    var i :| 0 <= i < |Keys(ms)| && Keys(ms)[i] == k;
    assert ms[i].key == k;
  }

  /** Where the member with key ms[i].key ends up. */
  lemma SortedMemberOf(ms: seq<Member>, i: nat) returns (p: nat)
    requires i < |ms| && Distinct(Keys(ms))
    ensures p < |Sort(Keys(ms))| && Sort(Keys(ms))[p] == ms[i].key && |Sort(Keys(ms))| == |ms|
    ensures SortDeep(Obj(ms)).members[p] == Member(ms[i].key, SortDeep(ms[i].value))
  {
    SortCorrect(Keys(ms));
    assert Keys(ms)[i] in multiset(Sort(Keys(ms)));
    p :| 0 <= p < |Sort(Keys(ms))| && Sort(Keys(ms))[p] == ms[i].key;
    PosOfKey(ms, i);
  }

  lemma SortedKeysDistinct(ms: seq<Member>)
    requires Distinct(Keys(ms))
    ensures Keys(SortDeep(Obj(ms)).members) == Sort(Keys(ms)) && Distinct(Sort(Keys(ms)))
  {
    SortCorrect(Keys(ms));
    PermutationKeepsDistinct(Keys(ms), Sort(Keys(ms)));
  }

  lemma {:induction false} SortDeepWellFormed(v: Json)
    requires WellFormed(v)
    ensures WellFormed(SortDeep(v))
  {
    match v
    case Arr(es) =>
      forall i | 0 <= i < |es| ensures WellFormed(SortDeep(v).elems[i]) { SortDeepWellFormed(es[i]); }
    case Obj(ms) =>
      SortedKeysDistinct(ms);
      var ks := Sort(Keys(ms));
      forall n | 0 <= n < |ks| ensures WellFormed(SortDeep(v).members[n].value) {
        KeyPresent(ms, n);
        SortDeepWellFormed(ms[Pos(ms, ks[n])].value);
      }
    case _ =>
  }

  /** Values equal up to key order sort to the same value. */
  lemma {:induction false} SameSortsEqual(a: Json, b: Json)
    requires WellFormed(a) && WellFormed(b) && Same(a, b)
    ensures SortDeep(a) == SortDeep(b)
    decreases a
  {
    match a
    case Arr(es) =>
      forall i | 0 <= i < |es| ensures SortDeep(a).elems[i] == SortDeep(b).elems[i] {
        SameSortsEqual(es[i], b.elems[i]);
      }
    case Obj(ms) =>
      SameKeys(ms, b.members);
      var ks := Sort(Keys(ms));
      forall n | 0 <= n < |ks| ensures SortDeep(a).members[n] == SortDeep(b).members[n] {
        KeyPresent(ms, n);
        KeyPresent(b.members, n);
        SameSortsEqual(ms[Pos(ms, ks[n])].value, b.members[Pos(b.members, ks[n])].value);
      }
      assert SortDeep(a).members == SortDeep(b).members;
    case _ =>
  }

  lemma SameKeys(ms: seq<Member>, ns: seq<Member>)
    requires Distinct(Keys(ms)) && Distinct(Keys(ns)) && |ms| == |ns|
    requires forall i :: 0 <= i < |ms| ==> Pos(ns, ms[i].key) < |ns|
    ensures Sort(Keys(ms)) == Sort(Keys(ns))
  {
    DistinctMultiset(Keys(ms));
    DistinctMultiset(Keys(ns));
    KeysIncluded(ms, ns);
    SubsetOfSameSize(Elements(Keys(ms)), Elements(Keys(ns)));
    SortDependsOnlyOnElements(Keys(ms), Keys(ns));
  }

  lemma KeysIncluded(ms: seq<Member>, ns: seq<Member>)
    requires forall i :: 0 <= i < |ms| ==> Pos(ns, ms[i].key) < |ns|
    ensures Elements(Keys(ms)) <= Elements(Keys(ns))
  {
    forall k | k in Elements(Keys(ms)) ensures k in Elements(Keys(ns)) {
      var i :| 0 <= i < |Keys(ms)| && Keys(ms)[i] == k;
      assert ms[i].key == k;
      assert Keys(ns)[Pos(ns, k)] == k;
    }
  }

  lemma SubsetOfSameSize<T>(a: set<T>, b: set<T>)
    requires a <= b && |a| == |b|
    ensures a == b
  {
    assert |b - a| == 0;
  }

  /** And only those: sorting forgets nothing but the key order. */
  lemma {:induction false} EqualSortsSame(a: Json, b: Json)
    requires WellFormed(a) && WellFormed(b) && SortDeep(a) == SortDeep(b)
    ensures Same(a, b)
    decreases a
  {
    match a
    case Arr(es) =>
      assert |SortDeep(a).elems| == |SortDeep(b).elems|;
      forall i | 0 <= i < |es| ensures Same(es[i], b.elems[i]) {
        assert SortDeep(a).elems[i] == SortDeep(b).elems[i];
        EqualSortsSame(es[i], b.elems[i]);
      }
    case Obj(ms) =>
      SortCorrect(Keys(ms));
      SortCorrect(Keys(b.members));
      SortedKeysDistinct(ms);
      SortedKeysDistinct(b.members);
      forall i | 0 <= i < |ms|
        ensures var j := Pos(b.members, ms[i].key); j < |b.members| && Same(ms[i].value, b.members[j].value)
      {
        var p := SortedMemberOf(ms, i);
        KeyPresent(b.members, p);
        var j := Pos(b.members, ms[i].key);
        assert SortDeep(b).members[p] == Member(ms[i].key, SortDeep(b.members[j].value));
        EqualSortsSame(ms[i].value, b.members[j].value);
      }
    case _ =>
  }

  lemma {:induction false} SortDeepSame(v: Json)
    requires WellFormed(v)
    ensures Same(SortDeep(v), v)
  {
    match v
    case Arr(es) =>
      forall i | 0 <= i < |es| ensures Same(SortDeep(v).elems[i], es[i]) { SortDeepSame(es[i]); }
    case Obj(ms) =>
      SortCorrect(Keys(ms));
      var ks := Sort(Keys(ms));
      forall n | 0 <= n < |ks|
        ensures var j := Pos(ms, SortDeep(v).members[n].key); j < |ms| && Same(SortDeep(v).members[n].value, ms[j].value)
      {
        KeyPresent(ms, n);
        SortDeepSame(ms[Pos(ms, ks[n])].value);
      }
    case _ =>
  }

  lemma SortDeepIdempotent(v: Json)
    requires WellFormed(v)
    ensures SortDeep(SortDeep(v)) == SortDeep(v)
  {
    SortDeepWellFormed(v);
    SortDeepSame(v);
    SameSortsEqual(SortDeep(v), v);
  }

  /** The keys of every object inside increase in the order of the code units. */
  ghost predicate KeysIncrease(v: Json) {
    match v
    case Arr(es) => forall i :: 0 <= i < |es| ==> KeysIncrease(es[i])
    case Obj(ms) =>
      && (forall i, j :: 0 <= i < j < |ms| ==> Precedes(ms[i].key, ms[j].key))
      && forall i :: 0 <= i < |ms| ==> KeysIncrease(ms[i].value)
    case _ => true
  }

  lemma SortedKeysIncrease(ms: seq<Member>, i: nat, j: nat)
    requires Distinct(Keys(ms)) && i < j < |Sort(Keys(ms))|
    ensures Precedes(Sort(Keys(ms))[i], Sort(Keys(ms))[j])
  {
    var ks := Sort(Keys(ms));
    SortCorrect(Keys(ms));
    SortedKeysDistinct(ms);
    LessTrichotomy(ks[i], ks[j]);
    LessIsPrecedes(ks[i], ks[j]);
  }

  lemma {:induction false} SortDeepKeysIncrease(v: Json)
    requires WellFormed(v)
    ensures KeysIncrease(SortDeep(v))
    decreases v
  {
    match v
    case Arr(es) =>
      forall i | 0 <= i < |es| ensures KeysIncrease(SortDeep(v).elems[i]) { SortDeepKeysIncrease(es[i]); }
    case Obj(ms) =>
      var out := SortDeep(v).members;
      SortCorrect(Keys(ms));
      forall i, j | 0 <= i < j < |out| ensures Precedes(out[i].key, out[j].key) { SortedKeysIncrease(ms, i, j); }
      forall i | 0 <= i < |out| ensures KeysIncrease(out[i].value) {
        KeyPresent(ms, i);
        SortDeepKeysIncrease(ms[Pos(ms, out[i].key)].value);
      }
    case _ =>
  }

  // ------------------------------------------------------------- JSON.stringify

  function HexDigit(n: int): char
    requires 0 <= n < 16
  {
    if n < 10 then ('0' as int + n) as char else ('a' as int + n - 10) as char
  }

  /** The escapes of section 3.2.2.2 of RFC 8785. */
  function EscapeChar(c: char): (r: string)
    ensures r != [] && r[0] != '"'
  {
    if c == '"' then "\\\""
    else if c == '\\' then "\\\\"
    else if c as int == 8 then "\\b"
    else if c as int == 9 then "\\t"
    else if c as int == 10 then "\\n"
    else if c as int == 12 then "\\f"
    else if c as int == 13 then "\\r"
    else if c as int < 32 then "\\u00" + [HexDigit(c as int / 16), HexDigit(c as int % 16)]
    else [c]
  }

  /** The characters of a string and its closing quote. */
  function QuotedRest(s: string): string {
    if s == [] then "\"" else EscapeChar(s[0]) + QuotedRest(s[1..])
  }

  function Quote(s: string): string { "\"" + QuotedRest(s) }

  function Print(v: Json): string
    decreases v, 1
  {
    match v
    case Null => "null"
    case Bool(b) => if b then "true" else "false"
    case Num(text) => text
    case Str(s) => Quote(s)
    case Arr(es) => "[" + PrintElems(es, true)
    case Obj(ms) => "{" + PrintMembers(ms, true)
  }

  function Lead(first: bool): string { if first then "" else "," }

  /** The elements and the closing bracket. */
  function PrintElems(es: seq<Json>, first: bool): string
    decreases es, 0
  {
    if es == [] then "]"
    else Lead(first) + (Print(es[0]) + PrintElems(es[1..], false))
  }

  /** The members and the closing brace. */
  function PrintMembers(ms: seq<Member>, first: bool): string
    decreases ms, 0
  {
    if ms == [] then "}"
    else Lead(first) + (Quote(ms[0].key) + (":" + (Print(ms[0].value) + PrintMembers(ms[1..], false))))
  }

  /** `canonicalJson`. */
  function Canonical(v: Json): string { Print(SortDeep(v)) }

  // ------------------------------------------------------- what is printed

  /** What a reader of JSON takes `e` for (section 7 of RFC 8259), where it is the shortest
      escape there is: none, a letter, or four digits. */
  ghost predicate StandsFor(e: string, c: char) {
    var n := c as int;
    || (e == [c] && n >= 32 && n != 34 && n != 92)
    || (|e| == 2 && e[0] as int == 92
        && ((n == 34 && e[1] as int == 34) || (n == 92 && e[1] as int == 92) || (n == 8 && e[1] == 'b')
            || (n == 9 && e[1] == 't') || (n == 10 && e[1] == 'n') || (n == 12 && e[1] == 'f') || (n == 13 && e[1] == 'r')))
    || (|e| == 6 && n < 32 && n !in {8, 9, 10, 12, 13}
        && e[0] as int == 92 && e[1] == 'u' && e[2] == '0' && e[3] == '0'
        && e[4] == "01"[n / 16] && e[5] == "0123456789abcdef"[n % 16])
  }

  lemma EscapeStandsFor(c: char, e: string)
    ensures EscapeChar(c) == e <==> StandsFor(e, c)
  {
    assert forall k :: 0 <= k < 16 ==> "0123456789abcdef"[k] == HexDigit(k);
  }

  /** The escapes of a text, one behind the other. */
  ghost function Escaped(s: string): string {
    if s == [] then "" else EscapeChar(s[0]) + Escaped(s[1..])
  }

  lemma {:induction false} QuotedRestIs(s: string)
    ensures QuotedRest(s) == Escaped(s) + "\""
  {
    if s != [] {
      QuotedRestIs(s[1..]);
      Assoc(EscapeChar(s[0]), Escaped(s[1..]), "\"");
    }
  }

  ghost function Printed(es: seq<Json>): seq<string> {
    seq(|es|, i requires 0 <= i < |es| => Print(es[i]))
  }

  ghost function MemberPrinted(m: Member): string { Quote(m.key) + ":" + Print(m.value) }

  ghost function PrintedMembers(ms: seq<Member>): seq<string> {
    seq(|ms|, i requires 0 <= i < |ms| => MemberPrinted(ms[i]))
  }

  /** A part, a comma if more follow, and what follows. */
  lemma JoinFirst(part: string, rest: seq<string>, close: string)
    ensures Join([part] + rest, ',') + close == part + if rest == [] then close else "," + Join(rest, ',') + close
  {
    assert ([part] + rest)[1..] == rest;
  }

  lemma {:induction false} ElemsJoined(es: seq<Json>)
    ensures PrintElems(es, true) == Join(Printed(es), ',') + "]"
    ensures es != [] ==> PrintElems(es, false) == "," + Join(Printed(es), ',') + "]"
  {
    if es != [] {
      ElemsJoined(es[1..]);
      assert Printed(es) == [Print(es[0])] + Printed(es[1..]);
      JoinFirst(Print(es[0]), Printed(es[1..]), "]");
      ElemsText(es, Join(Printed(es), ',') + "]");
    }
  }

  lemma ElemsText(es: seq<Json>, text: string)
    requires es != [] && text == Print(es[0]) + PrintElems(es[1..], false)
    ensures PrintElems(es, true) == text && PrintElems(es, false) == "," + text
  {
    assert "" + text == text;
  }

  lemma {:induction false} MembersJoined(ms: seq<Member>)
    ensures PrintMembers(ms, true) == Join(PrintedMembers(ms), ',') + "}"
    ensures ms != [] ==> PrintMembers(ms, false) == "," + Join(PrintedMembers(ms), ',') + "}"
  {
    if ms != [] {
      MembersJoined(ms[1..]);
      assert PrintedMembers(ms) == [MemberPrinted(ms[0])] + PrintedMembers(ms[1..]);
      JoinFirst(MemberPrinted(ms[0]), PrintedMembers(ms[1..]), "}");
      MembersText(ms, Join(PrintedMembers(ms), ',') + "}");
    }
  }

  lemma MembersText(ms: seq<Member>, text: string)
    requires ms != [] && text == MemberPrinted(ms[0]) + PrintMembers(ms[1..], false)
    ensures PrintMembers(ms, true) == text && PrintMembers(ms, false) == "," + text
  {
    FourParts(Quote(ms[0].key), Print(ms[0].value), PrintMembers(ms[1..], false));
    assert "" + text == text;
  }

  lemma FourParts(q: string, p: string, rest: string)
    ensures q + ":" + p + rest == q + (":" + (p + rest))
  {
  }

  /** JSON without white space: literals, escaped strings, and commas between the parts. */
  lemma PrintIs(v: Json)
    ensures match v
      case Null => Print(v) == "null"
      case Bool(b) => Print(v) == if b then "true" else "false"
      case Num(text) => Print(v) == text
      case Str(s) => Print(v) == "\"" + Escaped(s) + "\""
      case Arr(es) => Print(v) == "[" + Join(Printed(es), ',') + "]"
      case Obj(ms) => Print(v) == "{" + Join(PrintedMembers(ms), ',') + "}"
  {
    match v
    case Str(s) => QuotedRestIs(s);
    case Arr(es) => ElemsJoined(es);
    case Obj(ms) => MembersJoined(ms);
    case _ =>
  }

  // ------------------------------------------------------------ printing is exact

  ghost predicate AtBoundary(x: string) {
    x == [] || x[0] == ',' || x[0] == ']' || x[0] == '}'
  }

  lemma Cancel(p: string, x: string, y: string)
    requires p + x == p + y
    ensures x == y
  {
    assert x == (p + x)[|p|..] && y == (p + y)[|p|..];
  }

  lemma Assoc(p: string, q: string, r: string)
    ensures (p + q) + r == p + (q + r)
  {
  }

  lemma EscapeCharPrefixFree(c: char, d: char, x: string, y: string)
    requires EscapeChar(c) + x == EscapeChar(d) + y
    ensures c == d && x == y
  {
    var a, b := EscapeChar(c) + x, EscapeChar(d) + y;
    assert a[0] == EscapeChar(c)[0] && b[0] == EscapeChar(d)[0];
    if |EscapeChar(c)| > 1 {
      assert a[1] == EscapeChar(c)[1] && b[1] == EscapeChar(d)[1];
      if |EscapeChar(c)| > 2 {
        assert a[4] == EscapeChar(c)[4] && b[4] == EscapeChar(d)[4];
        assert a[5] == EscapeChar(c)[5] && b[5] == EscapeChar(d)[5];
      }
    }
    assert c == d;
    Cancel(EscapeChar(c), x, y);
  }

  lemma {:induction false} QuotedRestPrefixFree(s: string, t: string, x: string, y: string)
    requires QuotedRest(s) + x == QuotedRest(t) + y
    ensures s == t && x == y
  {
    if s != [] { Assoc(EscapeChar(s[0]), QuotedRest(s[1..]), x); }
    if t != [] { Assoc(EscapeChar(t[0]), QuotedRest(t[1..]), y); }
    assert (QuotedRest(s) + x)[0] == (QuotedRest(t) + y)[0];
    if s == [] || t == [] {
      Cancel("\"", x, y);
    } else {
      EscapeCharPrefixFree(s[0], t[0], QuotedRest(s[1..]) + x, QuotedRest(t[1..]) + y);
      QuotedRestPrefixFree(s[1..], t[1..], x, y);
      assert s == [s[0]] + s[1..] && t == [t[0]] + t[1..];
    }
  }

  lemma QuotePrefixFree(s: string, t: string, x: string, y: string)
    requires Quote(s) + x == Quote(t) + y
    ensures s == t && x == y
  {
    Assoc("\"", QuotedRest(s), x);
    Assoc("\"", QuotedRest(t), y);
    Cancel("\"", QuotedRest(s) + x, QuotedRest(t) + y);
    QuotedRestPrefixFree(s, t, x, y);
  }

  lemma NumbersPrefixFree(a: string, b: string, x: string, y: string)
    requires NumberText(a) && NumberText(b) && AtBoundary(x) && AtBoundary(y) && a + x == b + y
    ensures a == b && x == y
  {
    var ax, bz := a + x, b + y;
    assert |a| < |ax| ==> ax[|a|] == x[0];
    assert |b| < |bz| ==> bz[|b|] == y[0];
    assert forall k :: 0 <= k < |a| ==> ax[k] == a[k] && NumberChar(ax[k]);
    assert forall k :: 0 <= k < |b| ==> bz[k] == b[k] && NumberChar(bz[k]);
    assert |a| == |b|;
    assert a == ax[..|a|] && b == bz[..|b|];
    assert x == ax[|a|..] && y == bz[|b|..];
  }

  datatype Shape = Nothing | True | False | Number | Text | List | Record

  function ShapeOf(v: Json): Shape {
    match v
    case Null => Nothing
    case Bool(b) => if b then True else False
    case Num(_) => Number
    case Str(_) => Text
    case Arr(_) => List
    case Obj(_) => Record
  }

  function ShapeOfChar(c: char): Shape {
    if c == 'n' then Nothing else if c == 't' then True else if c == 'f' then False
    else if c == '"' then Text else if c == '[' then List else if c == '{' then Record else Number
  }

  /** The first character tells what kind of value follows, and closes nothing. */
  lemma FirstCharTells(v: Json)
    requires WellFormed(v)
    ensures Print(v) != [] && ShapeOfChar(Print(v)[0]) == ShapeOf(v)
    ensures Print(v)[0] != ']' && Print(v)[0] != '}' && Print(v)[0] != ','
  {
  }

  /** Printed values are self-delimiting: nothing is lost, even with text behind them. */
  lemma {:induction false} PrintPrefixFree(a: Json, b: Json, x: string, y: string)
    requires WellFormed(a) && WellFormed(b) && AtBoundary(x) && AtBoundary(y)
    requires Print(a) + x == Print(b) + y
    ensures a == b && x == y
    decreases a, 1
  {
    FirstCharTells(a);
    FirstCharTells(b);
    assert (Print(a) + x)[0] == Print(a)[0] && (Print(b) + y)[0] == Print(b)[0];
    assert ShapeOf(a) == ShapeOf(b);
    match a
    case Num(text) => NumbersPrefixFree(text, b.text, x, y);
    case Str(s) => QuotePrefixFree(s, b.s, x, y);
    case Arr(es) =>
      Assoc("[", PrintElems(es, true), x);
      Assoc("[", PrintElems(b.elems, true), y);
      Cancel("[", PrintElems(es, true) + x, PrintElems(b.elems, true) + y);
      ElemsPrefixFree(es, b.elems, true, x, y);
    case Obj(ms) =>
      Assoc("{", PrintMembers(ms, true), x);
      Assoc("{", PrintMembers(b.members, true), y);
      Cancel("{", PrintMembers(ms, true) + x, PrintMembers(b.members, true) + y);
      MembersPrefixFree(ms, b.members, true, x, y);
    case _ => Cancel(Print(a), x, y);
  }

  lemma ElemsUnfold(es: seq<Json>, first: bool, x: string)
    requires es != [] && WellFormed(es[0])
    ensures PrintElems(es, first) + x == Lead(first) + (Print(es[0]) + (PrintElems(es[1..], false) + x))
    ensures PrintElems(es, first)[0] != ']'
  {
  }

  lemma {:induction false} ElemsPrefixFree(es: seq<Json>, fs: seq<Json>, first: bool, x: string, y: string)
    requires (forall i :: 0 <= i < |es| ==> WellFormed(es[i])) && (forall i :: 0 <= i < |fs| ==> WellFormed(fs[i]))
    requires PrintElems(es, first) + x == PrintElems(fs, first) + y
    ensures es == fs && x == y
    decreases es, 0
  {
    if es != [] { ElemsUnfold(es, first, x); }
    if fs != [] { ElemsUnfold(fs, first, y); }
    assert PrintElems(es, first)[0] == PrintElems(fs, first)[0] by {
      assert (PrintElems(es, first) + x)[0] == (PrintElems(fs, first) + y)[0];
    }
    if es == [] || fs == [] {
      Cancel("]", x, y);
    } else {
      var u, v := PrintElems(es[1..], false) + x, PrintElems(fs[1..], false) + y;
      Cancel(Lead(first), Print(es[0]) + u, Print(fs[0]) + v);
      PrintPrefixFree(es[0], fs[0], u, v);
      ElemsPrefixFree(es[1..], fs[1..], false, x, y);
      assert es == [es[0]] + es[1..] && fs == [fs[0]] + fs[1..];
    }
  }

  function MemberText(m: Member, rest: string): string {
    Quote(m.key) + (":" + (Print(m.value) + rest))
  }

  lemma {:induction false} MemberPrefixFree(m: Member, n: Member, u: string, v: string)
    requires WellFormed(m.value) && WellFormed(n.value) && AtBoundary(u) && AtBoundary(v)
    requires MemberText(m, u) == MemberText(n, v)
    ensures m == n && u == v
    decreases m, 0
  {
    var a, b := Print(m.value) + u, Print(n.value) + v;
    QuotePrefixFree(m.key, n.key, ":" + a, ":" + b);
    Cancel(":", a, b);
    PrintPrefixFree(m.value, n.value, u, v);
  }

  lemma MembersUnfold(ms: seq<Member>, first: bool, x: string)
    requires ms != []
    ensures PrintMembers(ms, first) + x == Lead(first) + MemberText(ms[0], PrintMembers(ms[1..], false) + x)
    ensures PrintMembers(ms, first)[0] != '}'
  {
    var rest := PrintMembers(ms[1..], false);
    var text := MemberText(ms[0], rest);
    assert PrintMembers(ms, first) == Lead(first) + text;
    MemberTextEndsWith(ms[0], rest, x);
    assert Lead(first) + text + x == Lead(first) + (text + x);
  }

  lemma MemberTextEndsWith(m: Member, rest: string, x: string)
    ensures MemberText(m, rest) + x == MemberText(m, rest + x)
    ensures MemberText(m, rest)[0] == '"'
  {
    var v := Print(m.value);
    assert (v + rest) + x == v + (rest + x);
    assert (":" + (v + rest)) + x == ":" + (v + (rest + x));
  }

  lemma {:induction false} MembersPrefixFree(ms: seq<Member>, ns: seq<Member>, first: bool, x: string, y: string)
    requires forall i :: 0 <= i < |ms| ==> WellFormed(ms[i].value)
    requires forall i :: 0 <= i < |ns| ==> WellFormed(ns[i].value)
    requires PrintMembers(ms, first) + x == PrintMembers(ns, first) + y
    ensures ms == ns && x == y
    decreases ms, 0
  {
    if ms != [] { MembersUnfold(ms, first, x); }
    if ns != [] { MembersUnfold(ns, first, y); }
    assert PrintMembers(ms, first)[0] == PrintMembers(ns, first)[0] by {
      assert (PrintMembers(ms, first) + x)[0] == (PrintMembers(ns, first) + y)[0];
    }
    if ms == [] || ns == [] {
      Cancel("}", x, y);
    } else {
      var u, v := PrintMembers(ms[1..], false) + x, PrintMembers(ns[1..], false) + y;
      Cancel(Lead(first), MemberText(ms[0], u), MemberText(ns[0], v));
      MemberPrefixFree(ms[0], ns[0], u, v);
      MembersPrefixFree(ms[1..], ns[1..], false, x, y);
      assert ms == [ms[0]] + ms[1..] && ns == [ns[0]] + ns[1..];
    }
  }

  lemma PrintInjective(a: Json, b: Json)
    requires WellFormed(a) && WellFormed(b) && Print(a) == Print(b)
    ensures a == b
  {
    assert Print(a) + [] == Print(a) && Print(b) + [] == Print(b);
    PrintPrefixFree(a, b, [], []);
  }

  /** Canonical JSON is a complete invariant of the value up to key order. */
  lemma CanonicalIsComplete(a: Json, b: Json)
    requires WellFormed(a) && WellFormed(b)
    ensures Canonical(a) == Canonical(b) <==> Same(a, b)
  {
    if Same(a, b) { SameSortsEqual(a, b); }
    if Canonical(a) == Canonical(b) {
      SortDeepWellFormed(a);
      SortDeepWellFormed(b);
      PrintInjective(SortDeep(a), SortDeep(b));
      EqualSortsSame(a, b);
    }
  }
}
