/**
 `parseCrlSerials` (apps/worker-federation-receiver/src/key-resolver.ts): the serials
 that the body of a revocation list names, from its JSON form or from the text that
 `openssl crl -text` prints, and what the resolver's lookup makes of them.

 What `JSON.parse` makes of a body is a parameter.
 */
module CrlBody {
  import opened JsStrings
  import opened Wrappers

  const MAX_CRL_BODY_BYTES: nat := 1024 * 1024

  predicate IsHex(c: char) { '0' <= c <= '9' || 'A' <= c <= 'F' || 'a' <= c <= 'f' }

  /** `s.replace(/[^0-9a-f]/gi, '').toLowerCase()`. */
  function Normalise(s: string): string {
    if s == [] then [] else (if IsHex(s[0]) then [LowerChar(s[0])] else []) + Normalise(s[1..])
  }

  /** The hex digits of a text, in whatever case. */
  function HexDigits(s: string): string {
    if s == [] then [] else (if IsHex(s[0]) then [s[0]] else []) + HexDigits(s[1..])
  }

  lemma HexDigitsUnfold(a: string, b: string)
    requires a != []
    ensures var kept := if IsHex(a[0]) then [a[0]] else [];
      && HexDigits(a + b) == kept + HexDigits(a[1..] + b)
      && HexDigits(a) + HexDigits(b) == kept + (HexDigits(a[1..]) + HexDigits(b))
  {
    assert (a + b)[1..] == a[1..] + b;
    var kept := if IsHex(a[0]) then [a[0]] else [];
    assert kept + HexDigits(a[1..]) + HexDigits(b) == kept + (HexDigits(a[1..]) + HexDigits(b));
  }

  lemma {:induction false} HexDigitsOfParts(a: string, b: string)
    ensures HexDigits(a + b) == HexDigits(a) + HexDigits(b)
  {
    if a == [] {
      assert a + b == b;
    } else {
      HexDigitsOfParts(a[1..], b);
      HexDigitsUnfold(a, b);
    }
  }

  /** Nothing but digits is kept whole, and nothing is kept of a text without any. */
  lemma {:induction false} HexDigitsOfAll(s: string)
    ensures (forall i :: 0 <= i < |s| ==> IsHex(s[i])) ==> HexDigits(s) == s
    ensures (forall i :: 0 <= i < |s| ==> !IsHex(s[i])) ==> HexDigits(s) == []
  {
    if s != [] {
      assert forall i :: 0 <= i < |s[1..]| ==> s[1..][i] == s[i + 1];
      HexDigitsOfAll(s[1..]);
      assert s == [s[0]] + s[1..];
    }
  }

  /** '0' to '9' are 48 to 57, 'a' to 'f' 97 to 102. */
  predicate IsLowerHex(s: string) {
    forall i :: 0 <= i < |s| ==> 48 <= s[i] as int <= 57 || 97 <= s[i] as int <= 102
  }

  lemma {:induction false} NormaliseIsLowerHex(s: string)
    ensures Normalise(s) == Lower(HexDigits(s)) && IsLowerHex(Normalise(s))
  {
    if s == [] {
      assert Lower("") == "";
    } else {
      NormaliseIsLowerHex(s[1..]);
      var d := HexDigits(s[1..]);
      if IsHex(s[0]) { assert Lower([s[0]] + d) == [LowerChar(s[0])] + Lower(d); }
      assert [] + d == d && [] + Normalise(s[1..]) == Normalise(s[1..]);
    }
  }

  /** The same number, whatever the case of its digits and whatever stands between them. */
  predicate SameNumber(a: string, b: string) { SameUpToCase(HexDigits(a), HexDigits(b)) }

  lemma NormaliseEquatesNumbers(a: string, b: string)
    ensures Normalise(a) == Normalise(b) <==> SameNumber(a, b)
  {
    NormaliseIsLowerHex(a);
    NormaliseIsLowerHex(b);
    LowerEquatesCases(HexDigits(a), HexDigits(b));
  }

  /** The serials in the resolver's notation; one without a hex digit names nothing. */
  function SerialsOf(listed: seq<string>): set<string> {
    set i | 0 <= i < |listed| && Normalise(listed[i]) != [] :: Normalise(listed[i])
  }

  lemma SerialsAreLowerHex(listed: seq<string>)
    ensures forall x :: x in SerialsOf(listed) ==> x != "" && IsLowerHex(x)
  {
    forall i | 0 <= i < |listed| ensures IsLowerHex(Normalise(listed[i])) { NormaliseIsLowerHex(listed[i]); }
  }

  lemma SerialsOfOneMore(listed: seq<string>, s: string)
    ensures SerialsOf(listed + [s]) == SerialsOf(listed) + if Normalise(s) == [] then {} else {Normalise(s)}
  {
    var more := listed + [s];
    assert forall i :: 0 <= i < |listed| ==> more[i] == listed[i];
    assert more[|listed|] == s;
  }

  // ------------------------------------------------------------------ JSON form

  /** The `revoked_certs` the loop gets to see, each with its `serial_number` if that is a
      string: all of them, or those before the parser or the loop throws. */
  datatype JsonBody = Parsed(entries: seq<Option<string>>) | Threw(entries: seq<Option<string>>)

  function Present(entries: seq<Option<string>>): seq<string> {
    if entries == [] then []
    else
      var last := entries[|entries| - 1];
      Present(entries[..|entries| - 1]) + if last.Some? then [last.value] else []
  }

  lemma PresentOfOneMore(entries: seq<Option<string>>, n: nat)
    requires n < |entries|
    ensures Present(entries[..n + 1])
         == if entries[n].Some? then Present(entries[..n]) + [entries[n].value] else Present(entries[..n])
  {
    assert entries[..n + 1][..n] == entries[..n];
    assert Present(entries[..n]) + [] == Present(entries[..n]);
  }

  /** Every string the entries hold, and nothing else. */
  lemma {:induction false} PresentAre(entries: seq<Option<string>>, v: string)
    ensures v in Present(entries) <==> Some(v) in entries
  {
    if entries != [] {
      var n := |entries| - 1;
      PresentAre(entries[..n], v);
      assert entries == entries[..n] + [entries[n]];
    }
  }

  // ------------------------------------------------------------------ text form

  const LABEL: string := "Serial Number:"

  predicate IsSerialChar(c: char) { IsHex(c) || c == ':' || IsSpace(c) }

  /** How many characters at the front may belong to a serial. */
  function SerialRun(s: string): (r: nat)
    ensures r <= |s| && (r < |s| ==> !IsSerialChar(s[r]))
    ensures forall i :: 0 <= i < r ==> IsSerialChar(s[i])
  {
    if s == [] || !IsSerialChar(s[0]) then 0 else 1 + SerialRun(s[1..])
  }

  function Min(a: nat, b: nat): nat { if a < b then a else b }

  /** The capture of `\s{0,8}([0-9a-fA-F:\s]{1,256})` at the front of `s`, and where it
      ends. White space in front gives its last character back if nothing follows it. */
  function CaptureAt(s: string): (r: Option<(string, nat)>)
    ensures r.Some? ==> 0 < r.value.1 <= |s|
  {
    var w := Min(8, SpaceRun(s));
    var c := Min(256, SerialRun(s[w..]));
    if c > 0 then Some((s[w..w + c], w + c)) else if w > 0 then Some((s[w - 1..w], w)) else None
  }

  /** The captures of `trimmed.matchAll(..)`, in order. */
  function Captures(s: string): seq<string>
    decreases |s|
  {
    if |s| < |LABEL| then []
    else
      var found := if s[..|LABEL|] == LABEL then CaptureAt(s[|LABEL|..]) else None;
      if found.Some? then [found.value.0] + Captures(s[|LABEL| + found.value.1..]) else Captures(s[1..])
  }

  /** Where the pattern `Serial Number:\s{0,8}([0-9a-fA-F:\s]{1,256})` matches: its label
      begins at `start`, `spaces` characters of white space follow, and `taken` characters
      are captured. */
  datatype Match = Match(start: nat, spaces: nat, taken: nat)

  ghost predicate IsCaptured(c: char) {
    48 <= c as int <= 57 || 65 <= c as int <= 70 || 97 <= c as int <= 102 || c == ':' || IsSpace(c)
  }

  ghost predicate LabelAt(s: string, p: nat) {
    p + 14 <= |s| && s[p..p + 14] == "Serial Number:"
  }

  ghost predicate NoMatchAt(s: string, p: nat) {
    forall n {:trigger Matches(s, n)} :: Matches(s, n) ==> n.start != p
  }

  ghost predicate SpacesUpTo(t: string, n: nat) {
    n <= |t| && forall i :: 0 <= i < n ==> IsSpace(t[i])
  }

  ghost predicate CapturedUpTo(t: string, n: nat) {
    n <= |t| && forall i :: 0 <= i < n ==> IsCaptured(t[i])
  }

  /** What follows the label: up to eight characters of white space, then 1 to 256 to capture. */
  ghost predicate Fits(t: string, spaces: nat, taken: nat) {
    spaces <= 8 && SpacesUpTo(t, spaces) && 1 <= taken <= 256 && CapturedUpTo(t[spaces..], taken)
  }

  ghost predicate Matches(s: string, m: Match) {
    LabelAt(s, m.start) && Fits(s[m.start + 14..], m.spaces, m.taken)
  }

  /** Both repetitions are greedy, the first one first. */
  ghost predicate Greedy(s: string, m: Match) {
    Matches(s, m) && forall n {:trigger Matches(s, n)} :: Matches(s, n) && n.start == m.start ==>
      n.spaces < m.spaces || (n.spaces == m.spaces && n.taken <= m.taken)
  }

  function End(m: Match): nat { m.start + 14 + m.spaces + m.taken }

  function Taken(s: string, m: Match): string {
    if End(m) <= |s| then s[m.start + 14 + m.spaces..End(m)] else ""
  }

  /** All matches from position `from` on: each is the first behind the one before it. */
  ghost predicate AllMatches(s: string, from: nat, found: seq<Match>)
    decreases |found|
  {
    if found == [] then forall n {:trigger Matches(s, n)} :: Matches(s, n) ==> n.start < from
    else
      && Greedy(s, found[0]) && from <= found[0].start
      && (forall n {:trigger Matches(s, n)} :: Matches(s, n) && from <= n.start ==> found[0].start <= n.start)
      && AllMatches(s, End(found[0]), found[1..])
  }

  ghost function TakenAt(s: string, found: seq<Match>): seq<string> {
    seq(|found|, i requires 0 <= i < |found| => Taken(s, found[i]))
  }

  lemma CapturedIsSerialChar(c: char)
    ensures IsCaptured(c) <==> IsSerialChar(c)
  {
  }

  /** White space as far as it goes, and serial characters as far as they go. */
  lemma SpacesAreRun(t: string, n: nat)
    ensures SpacesUpTo(t, n) <==> n <= SpaceRun(t)
  {
    SpaceRunEnds(t);
    if n > SpaceRun(t) && n <= |t| { assert !IsSpace(t[SpaceRun(t)]); }
  }

  lemma CapturedAreRun(t: string, n: nat)
    ensures CapturedUpTo(t, n) <==> n <= SerialRun(t)
  {
    var r := SerialRun(t);
    forall i | 0 <= i < r ensures IsCaptured(t[i]) { CapturedIsSerialChar(t[i]); }
    if r < n <= |t| { CapturedIsSerialChar(t[r]); }
  }

  lemma FitsRuns(t: string, spaces: nat, taken: nat)
    ensures Fits(t, spaces, taken) <==>
      spaces <= 8 && spaces <= SpaceRun(t) && 1 <= taken <= 256 && taken <= SerialRun(t[spaces..])
  {
    SpacesAreRun(t, spaces);
    if spaces <= |t| { CapturedAreRun(t[spaces..], taken); }
  }

  /** The last white space before something else is a serial of one character. */
  lemma SpaceThenEnd(t: string, w: nat)
    requires 0 < w <= SpaceRun(t) && SerialRun(t[w..]) == 0
    ensures SerialRun(t[w - 1..]) == 1
  {
    SpaceRunEnds(t);
    var u := t[w - 1..];
    assert u[0] == t[w - 1] && u[1..] == t[w..];
  }

  ghost predicate NoLonger(spaces: nat, taken: nat, w: nat, c: nat) {
    spaces < w || (spaces == w && taken <= c)
  }

  /** CaptureAt takes what the pattern takes, and nothing if the pattern does not match. */
  lemma CaptureIsGreedy(t: string) returns (w: nat, c: nat)
    ensures CaptureAt(t).None? ==> forall spaces, taken :: !Fits(t, spaces, taken)
    ensures CaptureAt(t).Some? ==>
      && Fits(t, w, c) && w + c <= |t| && CaptureAt(t) == Some((t[w..w + c], w + c))
      && forall spaces, taken :: Fits(t, spaces, taken) ==> NoLonger(spaces, taken, w, c)
  {
    w := Min(8, SpaceRun(t));
    c := Min(256, SerialRun(t[w..]));
    if c == 0 && w > 0 {
      SpaceThenEnd(t, w);
      w, c := w - 1, 1;
    }
    FitsRuns(t, w, c);
    forall spaces, taken | Fits(t, spaces, taken) ensures c > 0 && NoLonger(spaces, taken, w, c) {
      FitsRuns(t, spaces, taken);
    }
  }

  lemma AllMatchesFromEarlier(s: string, from: nat, found: seq<Match>)
    requires AllMatches(s, from + 1, found)
    requires NoMatchAt(s, from)
    ensures AllMatches(s, from, found)
  {
  }

  lemma FromLabel(s: string, from: nat, taken: string, n: nat, end: nat)
    requires LabelAt(s, from) && CaptureAt(s[from + 14..]) == Some((taken, n)) && end == from + 14 + n
    ensures end <= |s| && Captures(s[from..]) == [taken] + Captures(s[end..])
  {
    var t := s[from + 14..];
    assert s[from..] == LABEL + t;
    assert t[n..] == s[end..];
    CapturesOfLabelled(t, taken, n, s[end..]);
  }

  lemma MatchFound(s: string, from: nat) returns (m: Match)
    requires LabelAt(s, from) && CaptureAt(s[from + 14..]).Some?
    ensures Greedy(s, m) && m.start == from && End(m) <= |s|
    ensures CaptureAt(s[from + 14..]) == Some((Taken(s, m), m.spaces + m.taken))
  {
    var w, c := CaptureIsGreedy(s[from + 14..]);
    m := Match(from, w, c);
    assert s[from + 14..][w..w + c] == Taken(s, m);
    forall n {:trigger Matches(s, n)} | Matches(s, n) && n.start == from
      ensures n.spaces < w || (n.spaces == w && n.taken <= c)
    {
      assert NoLonger(n.spaces, n.taken, w, c);
    }
  }

  /** The first match, which begins here. */
  lemma CapturesFromLabel(s: string, from: nat) returns (m: Match)
    requires LabelAt(s, from) && CaptureAt(s[from + 14..]).Some?
    ensures Greedy(s, m) && m.start == from && from < End(m) <= |s|
    ensures Captures(s[from..]) == [Taken(s, m)] + Captures(s[End(m)..])
  {
    m := MatchFound(s, from);
    FromLabel(s, from, Taken(s, m), m.spaces + m.taken, End(m));
  }

  lemma NoCaptureNoMatch(s: string, p: nat)
    requires !(LabelAt(s, p) && CaptureAt(s[p + 14..]).Some?)
    ensures NoMatchAt(s, p)
  {
    if LabelAt(s, p) { var w, c := CaptureIsGreedy(s[p + 14..]); }
  }

  lemma MatchFirst(s: string, m: Match, more: seq<Match>)
    requires Greedy(s, m) && AllMatches(s, End(m), more)
    ensures AllMatches(s, m.start, [m] + more)
  {
    assert ([m] + more)[1..] == more;
  }

  lemma CapturesSkip(s: string, from: nat)
    requires from + 14 <= |s| && !(LabelAt(s, from) && CaptureAt(s[from + 14..]).Some?)
    ensures Captures(s[from..]) == Captures(s[from + 1..])
  {
    var t := s[from..];
    assert t[..14] == s[from..from + 14] && t[14..] == s[from + 14..] && t[1..] == s[from + 1..];
  }

  lemma TakenOfOneMore(s: string, m: Match, found: seq<Match>)
    ensures TakenAt(s, [m] + found) == [Taken(s, m)] + TakenAt(s, found)
  {
  }

  /** The captures are those of all matches of the pattern, and of nothing else. */
  lemma {:induction false} CapturesAreMatches(s: string, from: nat) returns (found: seq<Match>)
    requires from <= |s|
    ensures AllMatches(s, from, found) && Captures(s[from..]) == TakenAt(s, found)
    decreases |s| - from
  {
    found := [];
    if LabelAt(s, from) && CaptureAt(s[from + 14..]).Some? {
      var m := CapturesFromLabel(s, from);
      var more := CapturesAreMatches(s, End(m));
      found := [m] + more;
      MatchFirst(s, m, more);
      TakenOfOneMore(s, m, more);
    } else if from + 14 <= |s| {
      CapturesSkip(s, from);
      NoCaptureNoMatch(s, from);
      found := CapturesAreMatches(s, from + 1);
      AllMatchesFromEarlier(s, from, found);
    }
  }

  // -------------------------------------------------------------------- the body

  /** What the body names, before it is normalised. */
  function ListedIn(body: string, json: JsonBody): seq<string> {
    if |body| > MAX_CRL_BODY_BYTES then []
    else
      var trimmed := Trim(body);
      if trimmed != [] && trimmed[0] == '{' then
        Present(json.entries) + if json.Parsed? then [] else Captures(trimmed)
      else Captures(trimmed)
  }

  /** Nothing over 1 MiB; the JSON entries of a body in braces, and if JSON.parse throws
      what is captured as well; the captures of any other body. */
  lemma ListedCases(body: string, json: JsonBody)
    ensures |body| > 1_048_576 ==> ListedIn(body, json) == []
    ensures |body| <= 1_048_576 ==>
      if "{" <= Trim(body) then
        ListedIn(body, json) == Present(json.entries) + if json.Threw? then Captures(Trim(body)) else []
      else ListedIn(body, json) == Captures(Trim(body))
  {
  }

  method ParseCrlSerials(body: string, json: JsonBody) returns (out: set<string>)
    ensures out == SerialsOf(ListedIn(body, json))
    ensures forall x :: x in out ==> x != "" && IsLowerHex(x)
  {
    SerialsAreLowerHex(ListedIn(body, json));
    out := {};
    if |body| > MAX_CRL_BODY_BYTES { return; }
    var trimmed := Trim(body);
    ghost var before := [];
    if trimmed != [] && trimmed[0] == '{' {
      before := Present(json.entries);
      out := FromEntries(json.entries);
      if json.Parsed? {
        assert before + [] == before;
        return;
      }
    }
    out := AddCaptures(out, before, Captures(trimmed));
    assert [] + Captures(trimmed) == Captures(trimmed);
  }

  /** The loop over the JSON entries. */
  method FromEntries(entries: seq<Option<string>>) returns (out: set<string>)
    ensures out == SerialsOf(Present(entries))
  {
    out := {};
    for n := 0 to |entries|
      invariant out == SerialsOf(Present(entries[..n]))
    {
      PresentOfOneMore(entries, n);
      if entries[n].Some? {
        SerialsOfOneMore(Present(entries[..n]), entries[n].value);
        out := AddSerial(out, entries[n].value);
      }
    }
    assert entries[..|entries|] == entries;
  }

  /** The loop over the text captures. */
  method AddCaptures(from: set<string>, ghost before: seq<string>, captures: seq<string>) returns (out: set<string>)
    requires from == SerialsOf(before)
    ensures out == SerialsOf(before + captures)
  {
    out := from;
    assert before + captures[..0] == before;
    for n := 0 to |captures|
      invariant out == SerialsOf(before + captures[..n])
    {
      assert before + captures[..n + 1] == before + captures[..n] + [captures[n]];
      SerialsOfOneMore(before + captures[..n], captures[n]);
      out := AddSerial(out, captures[n]);
    }
    assert captures[..|captures|] == captures;
  }

  /** The two lines both loops share. */
  method AddSerial(out: set<string>, s: string) returns (more: set<string>)
    ensures more == out + if Normalise(s) == [] then {} else {Normalise(s)}
  {
    var norm := Normalise(s);
    more := out;
    if |norm| > 0 { more := more + {norm}; }
  }

  // ------------------------------------------------- printed lists read back

  /** A serial as openssl prints it: bytes in hex with colons between them. */
  predicate IsPrinted(s: string) {
    1 <= |s| <= 255 && IsHex(s[0]) && IsHex(s[|s| - 1]) && forall i :: 0 <= i < |s| ==> IsHex(s[i]) || s[i] == ':'
  }

  /** The lines of the text form. */
  function Printed(serials: seq<string>): string {
    if serials == [] then ""
    else LABEL + " " + serials[0] + (if |serials| == 1 then "" else "\n" + Printed(serials[1..]))
  }

  lemma {:induction false} SerialRunOf(s: string, rest: string)
    requires (forall i :: 0 <= i < |s| ==> IsSerialChar(s[i])) && (rest != [] ==> !IsSerialChar(rest[0]))
    ensures SerialRun(s + rest) == |s|
  {
    var r, all := SerialRun(s + rest), s + rest;
    assert forall i :: 0 <= i < |s| ==> all[i] == s[i];
    assert |s| < |all| ==> all[|s|] == rest[0];
  }

  /** What is captured behind a label. */
  lemma CaptureOfSerial(taken: string, tail: string)
    requires 1 <= |taken| <= 256 && IsHex(taken[0]) && forall i :: 0 <= i < |taken| ==> IsSerialChar(taken[i])
    requires tail != [] ==> !IsSerialChar(tail[0])
    ensures CaptureAt(" " + (taken + tail)) == Some((taken, 1 + |taken|))
  {
    var s := " " + (taken + tail);
    assert s[1..] == taken + tail && (taken + tail)[0] == taken[0];
    assert SpaceRun(taken + tail) == 0;
    SerialRunOf(taken, tail);
    assert s[1..1 + |taken|] == taken;
  }

  lemma CapturesOfLabelled(s: string, taken: string, n: nat, rest: string)
    requires CaptureAt(s) == Some((taken, n)) && n <= |s| && s[n..] == rest
    ensures Captures(LABEL + s) == [taken] + Captures(rest)
  {
    var line := LABEL + s;
    assert line[..|LABEL|] == LABEL && line[|LABEL|..] == s;
    assert line[|LABEL| + n..] == rest;
  }

  lemma SerialChars(serial: string, taken: string)
    requires IsPrinted(serial) && (taken == serial || taken == serial + "\n")
    ensures 1 <= |taken| <= 256 && IsHex(taken[0]) && forall i :: 0 <= i < |taken| ==> IsSerialChar(taken[i])
  {
  }

  /** One line is captured up to the next label, or to the end. */
  lemma CaptureOfLine(serial: string, taken: string, tail: string)
    requires IsPrinted(serial)
    requires (taken == serial && tail == "") || (taken == serial + "\n" && tail != "" && tail[0] == 'S')
    ensures Captures(LABEL + (" " + (taken + tail))) == [taken] + Captures(tail)
  {
    var s := " " + (taken + tail);
    SerialChars(serial, taken);
    CaptureOfSerial(taken, tail);
    assert s[1 + |taken|..] == tail;
    CapturesOfLabelled(s, taken, 1 + |taken|, tail);
  }

  lemma NormaliseOfOneMore(s: string, c: char)
    ensures Normalise(s + [c]) == Normalise(s) + if IsHex(c) then [LowerChar(c)] else []
  {
    if s == [] {
    } else {
      NormaliseOfOneMore(s[1..], c);
      assert (s + [c])[1..] == s[1..] + [c];
    }
  }

  /** The first line, with the line break the capture takes in, and the lines behind it. */
  lemma PrintedUnfolds(serials: seq<string>) returns (taken: string, tail: string)
    requires serials != []
    ensures Printed(serials) == LABEL + (" " + (taken + tail))
    ensures tail == Printed(serials[1..])
    ensures (taken == serials[0] && tail == "") || (taken == serials[0] + "\n" && tail != "" && tail[0] == 'S')
  {
    tail := Printed(serials[1..]);
    if |serials| == 1 {
      taken := serials[0];
      assert taken + tail == taken;
    } else {
      taken := serials[0] + "\n";
      assert serials[0] + ("\n" + tail) == taken + tail;
    }
  }

  /** The same serials in the same order, up to notation. */
  ghost predicate SameNames(a: seq<string>, b: seq<string>) {
    |a| == |b| && forall i :: 0 <= i < |a| ==> Normalise(a[i]) == Normalise(b[i])
  }

  lemma SameNamesOneMore(x: string, y: string, a: seq<string>, b: seq<string>)
    requires Normalise(x) == Normalise(y) && SameNames(a, b)
    ensures SameNames([x] + a, [y] + b)
  {
  }

  /** Every printed serial is found, and nothing else. */
  lemma {:induction false} PrintedSerialsFound(serials: seq<string>)
    requires forall i :: 0 <= i < |serials| ==> IsPrinted(serials[i])
    ensures SameNames(Captures(Printed(serials)), serials)
  {
    if serials != [] {
      var taken, tail := PrintedUnfolds(serials);
      PrintedSerialsFound(serials[1..]);
      CaptureOfLine(serials[0], taken, tail);
      NormaliseOfOneMore(serials[0], '\n');
      SameNamesOneMore(taken, serials[0], Captures(tail), serials[1..]);
      assert serials == [serials[0]] + serials[1..];
    }
  }

  lemma {:induction false} PrintedNotTrimmed(serials: seq<string>)
    requires serials != [] && forall i :: 0 <= i < |serials| ==> IsPrinted(serials[i])
    ensures Printed(serials)[0] == 'S' && IsHex(Printed(serials)[|Printed(serials)| - 1])
  {
    var s := Printed(serials);
    if |serials| == 1 {
      assert s[|s| - 1] == serials[0][|serials[0]| - 1];
    } else {
      PrintedNotTrimmed(serials[1..]);
      var t := Printed(serials[1..]);
      assert s[|s| - 1] == t[|t| - 1];
    }
  }

  /** The text form round-trips: whatever JSON.parse says, the printed list names exactly
      the serials it was printed from. */
  lemma TextFormRoundTrip(serials: seq<string>, json: JsonBody)
    requires forall i :: 0 <= i < |serials| ==> IsPrinted(serials[i])
    requires |Printed(serials)| <= MAX_CRL_BODY_BYTES
    ensures SerialsOf(ListedIn(Printed(serials), json)) == SerialsOf(serials)
  {
    var body := Printed(serials);
    if serials != [] {
      PrintedNotTrimmed(serials);
      assert Trim(body) == body;
    }
    PrintedSerialsFound(serials);
    SameSerials(Captures(body), serials);
  }

  lemma SameSerials(a: seq<string>, b: seq<string>)
    requires SameNames(a, b)
    ensures SerialsOf(a) == SerialsOf(b)
  {
    forall x ensures x in SerialsOf(a) <==> x in SerialsOf(b) {
      if i :| 0 <= i < |a| && Normalise(a[i]) != [] && Normalise(a[i]) == x { assert Normalise(b[i]) == x; }
      if i :| 0 <= i < |b| && Normalise(b[i]) != [] && Normalise(b[i]) == x { assert Normalise(a[i]) == x; }
    }
  }

  // -------------------------------------------------------------- the lookup

  /** The list names the certificate, in whatever notation. */
  predicate Lists(listed: seq<string>, serial: string) {
    exists i :: 0 <= i < |listed| && SameNumber(listed[i], serial)
  }

  /** The second group of SIGNING_KEY_ID_RE. */
  predicate IsSerial(s: string) {
    1 <= |s| <= 80 && IsHex(s[0]) && forall i :: 0 <= i < |s| ==> IsHex(s[i]) || s[i] == '-'
  }

  predicate SeparatorFree(serial: string) { '-' !in serial }

  lemma {:induction false} NormaliseHexOnly(s: string)
    ensures '-' !in Normalise(s)
    ensures (forall i :: 0 <= i < |s| ==> IsHex(s[i])) ==> Normalise(s) == Lower(s)
  {
    if s != [] {
      NormaliseHexOnly(s[1..]);
      if forall i :: 0 <= i < |s| ==> IsHex(s[i]) {
        assert forall i :: 0 <= i < |s[1..]| ==> IsHex(s[1..][i]);
        assert Lower(s) == [LowerChar(s[0])] + Lower(s[1..]);
      }
    }
  }

  lemma NoDashListed(listed: seq<string>)
    ensures forall s :: s in SerialsOf(listed) ==> '-' !in s
  {
    forall i | 0 <= i < |listed| ensures '-' !in Normalise(listed[i]) { NormaliseHexOnly(listed[i]); }
  }

  lemma DashStaysInLower(serial: string)
    requires !SeparatorFree(serial)
    ensures '-' in Lower(serial)
  {
    var i :| 0 <= i < |serial| && serial[i] == '-';
    assert Lower(serial)[i] == '-';
  }

  /** The check `crl.has(serial.toLowerCase())` recognises a serial without separators on
      every list that names it, and one with separators on no list at all. */
  lemma RevocationRecognisedIff(serial: string, listed: seq<string>)
    requires IsSerial(serial)
    ensures SeparatorFree(serial) ==> (Lower(serial) in SerialsOf(listed) <==> Lists(listed, serial))
    ensures !SeparatorFree(serial) ==> Lower(serial) !in SerialsOf(listed)
  {
    if SeparatorFree(serial) {
      forall i | 0 <= i < |serial| ensures IsHex(serial[i]) { assert serial[i] in serial; }
      NormaliseHexOnly(serial);
      assert |Lower(serial)| > 0;
      forall i | 0 <= i < |listed| ensures Normalise(listed[i]) == Lower(serial) <==> SameNumber(listed[i], serial) {
        NormaliseEquatesNumbers(listed[i], serial);
      }
      if i :| 0 <= i < |listed| && SameNumber(listed[i], serial) {
        assert Normalise(listed[i]) in SerialsOf(listed);
      }
    } else {
      NoDashListed(listed);
      DashStaysInLower(serial);
    }
  }

  /** In particular a serial is found however its digits are written on the list: in either
      case, with or without colons. */
  lemma OtherCaseRecognised(serial: string, listed: seq<string>, i: nat)
    requires IsSerial(serial) && SeparatorFree(serial) && i < |listed|
    requires SameUpToCase(HexDigits(listed[i]), serial)
    ensures Lower(serial) in SerialsOf(listed)
  {
    forall k | 0 <= k < |serial| ensures IsHex(serial[k]) { assert serial[k] in serial; }
    HexDigitsOfAll(serial);
    assert SameNumber(listed[i], serial);
    RevocationRecognisedIff(serial, listed);
  }
}
