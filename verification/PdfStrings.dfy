/**
 `unescapePdfLiteral` and `decodePdfHex`
 (apps/worker-document/src/pdf-metadata.ts and pdf-text.ts). The two copies differ
 in their output cap and in the largest octal code they accept, which are
 parameters here. The two notations are those of sections 7.3.4.2 and 7.3.4.3 of
 ISO 32000-1.

 Text is a sequence of UTF-16 code units.
 */
module PdfStrings {

  type Unit = n: int | 0 <= n < 0x1_0000
  type Text = seq<Unit>

  // the output cap and the octal limit of pdf-metadata.ts
  const MAX_VALUE_LEN: nat := 500
  const METADATA_OCTAL_LIMIT: int := 127

  // .. and of pdf-text.ts
  const MAX_TEXT_OUT: nat := 2 * 1024 * 1024
  const TEXT_OCTAL_LIMIT: int := 256

  const BACKSLASH: Unit := '\\' as int
  const OPEN: Unit := '(' as int
  const CLOSE: Unit := ')' as int

  predicate IsOctal(u: Unit) { '0' as int <= u <= '7' as int }

  function OctalDigit(u: Unit): int
    requires IsOctal(u)
  {
    u - '0' as int
  }

  // ----------------------------------------------------------------- unescaping

  /** What one escape stands for, and where the scan goes on. */
  datatype Escape = Escape(emitted: Text, next: nat)

  /** Where an octal run that starts at `start` ends: at most three digits. */
  function OctalEnd(s: Text, start: nat, j: nat): (r: nat)
    requires start < j <= |s|
    ensures j <= r <= |s| && (j <= start + 3 ==> r <= start + 3)
    decreases |s| - j
  {
    if j < |s| && j < start + 3 && IsOctal(s[j]) then OctalEnd(s, start, j + 1) else j
  }

  function OctalValue(s: Text): (r: int)
    requires forall i :: 0 <= i < |s| ==> IsOctal(s[i])
    ensures r >= 0
  {
    if s == [] then 0 else 8 * OctalValue(s[..|s| - 1]) + OctalDigit(s[|s| - 1])
  }

  /** The digits of the run, up to the first that is not one. */
  function OctalPrefix(s: Text): (r: Text)
    ensures forall i :: 0 <= i < |r| ==> IsOctal(r[i])
  {
    if s == [] || !IsOctal(s[0]) then [] else [s[0]] + OctalPrefix(s[1..])
  }

  /** The escape whose backslash is at position i. */
  function EscapeAt(s: Text, i: nat, limit: int): (e: Escape)
    requires i < |s| && s[i] == BACKSLASH && limit <= 256
    ensures i < e.next && |e.emitted| <= 1 && |e.emitted| <= |s| - i
  {
    if i + 1 == |s| then Escape([], i + 2)
    else
      var n := s[i + 1];
      if n == 'n' as int then Escape([10], i + 2)
      else if n == 'r' as int then Escape([13], i + 2)
      else if n == 't' as int then Escape([9], i + 2)
      else if n == OPEN || n == CLOSE || n == BACKSLASH then Escape([n], i + 2)
      else if IsOctal(n) then
        var j := OctalEnd(s, i + 1, i + 2);
        var code := OctalValue(OctalPrefix(s[i + 1..j]));
        Escape(if 32 <= code < limit then [code] else [], j)
      else Escape([n], i + 2)
  }

  /** The scan from position i with `out` produced so far. */
  function UnescapeFrom(s: Text, i: nat, out: Text, cap: nat, limit: int): Text
    requires limit <= 256
    decreases |s| - i
  {
    if i >= |s| then out
    else if s[i] != BACKSLASH then UnescapeFrom(s, i + 1, out + [s[i]], cap, limit)
    else
      var e := EscapeAt(s, i, limit);
      var more := out + e.emitted;
      if |more| > cap then more else UnescapeFrom(s, e.next, more, cap, limit)
  }

  function Unescape(s: Text, cap: nat, limit: int): Text
    requires limit <= 256
  {
    UnescapeFrom(s, 0, [], cap, limit)
  }

  method UnescapePdfLiteral(s: Text, cap: nat, limit: int) returns (out: Text)
    requires limit <= 256
    ensures out == Unescape(s, cap, limit)
  {
    out := [];
    var i := 0;
    while i < |s|
      invariant 0 <= i
      invariant UnescapeFrom(s, i, out, cap, limit) == Unescape(s, cap, limit)
      decreases |s| - i
    {
      if s[i] != BACKSLASH {
        out := out + [s[i]];
        i := i + 1;
        continue;
      }
      if i + 1 == |s| {
        assert out + [] == out;
        i := i + 1;
      } else {
        var n := s[i + 1];
        if n == 'n' as int {
          out := out + [10];
          i := i + 1;
        } else if n == 'r' as int {
          out := out + [13];
          i := i + 1;
        } else if n == 't' as int {
          out := out + [9];
          i := i + 1;
        } else if n == OPEN || n == CLOSE || n == BACKSLASH {
          out := out + [n];
          i := i + 1;
        } else if IsOctal(n) {
          var j := OctalRun(s, i);
          var code := OctalValue(OctalPrefix(s[i + 1..j]));
          if 32 <= code < limit {
            out := out + [code];
          } else {
            assert out + [] == out;
          }
          i := j - 1;
        } else {
          out := out + [n];
          i := i + 1;
        }
      }
      if |out| > cap { break; }
      i := i + 1;
    }
  }

  /** The inner loop over the octal digits. */
  method OctalRun(s: Text, i: nat) returns (j: nat)
    requires i + 1 < |s|
    ensures j == OctalEnd(s, i + 1, i + 2) && j > i + 1
  {
    j := i + 2;
    while j < |s| && j < i + 4 && IsOctal(s[j])
      invariant i + 2 <= j <= |s| && j <= i + 4
      invariant OctalEnd(s, i + 1, j) == OctalEnd(s, i + 1, i + 2)
    {
      j := j + 1;
    }
  }

  // ------------------------------------------------------------------- escaping

  /** The pieces of a literal string: a character as it stands, a named escape, an octal
      code, a backslash in front of any other character, and one at the very end. */
  datatype Token = Plain(c: Unit) | Named(c: Unit) | Octal(digits: Text) | Odd(c: Unit) | Lone

  predicate HasName(c: Unit) { c == 10 || c == 13 || c == 9 || c == OPEN || c == CLOSE || c == BACKSLASH }

  function NameOf(c: Unit): Unit {
    if c == 10 then 'n' as int else if c == 13 then 'r' as int else if c == 9 then 't' as int else c
  }

  function Write(t: Token): (r: Text)
    ensures r != []
  {
    match t
    case Plain(c) => [c]
    case Named(c) => [BACKSLASH, NameOf(c)]
    case Octal(digits) => [BACKSLASH] + digits
    case Odd(c) => [BACKSLASH, c]
    case Lone => [BACKSLASH]
  }

  function WriteAll(ts: seq<Token>): Text {
    if ts == [] then [] else Write(ts[0]) + WriteAll(ts[1..])
  }

  ghost predicate OctalText(s: Text) { forall i :: 0 <= i < |s| ==> IsOctal(s[i]) }

  /** The code of one, two or three octal digits, whose characters begin at 48. */
  ghost function CodeOf(digits: Text): int {
    if |digits| == 1 then digits[0] as int - 48
    else if |digits| == 2 then 8 * (digits[0] as int - 48) + (digits[1] as int - 48)
    else if |digits| == 3 then 64 * (digits[0] as int - 48) + 8 * (digits[1] as int - 48) + (digits[2] as int - 48)
    else 0
  }

  /** The piece may stand in front of `rest`: an octal code takes up to three digits. */
  ghost predicate Fits(t: Token, rest: Text) {
    match t
    case Plain(c) => c != BACKSLASH
    case Named(c) => HasName(c)
    case Octal(digits) =>
      1 <= |digits| <= 3 && OctalText(digits) && (|digits| < 3 && rest != [] ==> !IsOctal(rest[0]))
    case Odd(c) => c !in {'n' as int, 'r' as int, 't' as int, OPEN, CLOSE, BACKSLASH} && !IsOctal(c)
    case Lone => rest == []
  }

  ghost predicate WellWritten(ts: seq<Token>) {
    ts == [] || (Fits(ts[0], WriteAll(ts[1..])) && WellWritten(ts[1..]))
  }

  /** What a piece stands for: octal codes outside the printable range are dropped. */
  ghost function Emits(t: Token, limit: int): Text
    requires limit <= 256
  {
    match t
    case Plain(c) => [c]
    case Named(c) => [c]
    case Octal(digits) => if 32 <= CodeOf(digits) < limit then [CodeOf(digits)] else []
    case Odd(c) => [c]
    case Lone => []
  }

  ghost function Meaning(ts: seq<Token>, limit: int): Text
    requires limit <= 256
  {
    if ts == [] then [] else Meaning(ts[..|ts| - 1], limit) + Emits(ts[|ts| - 1], limit)
  }

  lemma OctalEnds(s: Text, i: nat, digits: Text, rest: Text)
    requires i < |s| && s[i + 1..] == digits + rest && Fits(Octal(digits), rest)
    ensures OctalEnd(s, i + 1, i + 2) == i + 1 + |digits| && s[i + 1..i + 1 + |digits|] == digits
  {
    assert forall k :: 0 <= k < |digits| ==> s[i + 1..][k] == digits[k];
    assert rest != [] ==> s[i + 1..][|digits|] == rest[0];
    if |digits| >= 2 { assert OctalEnd(s, i + 1, i + 2) == OctalEnd(s, i + 1, i + 3); }
    if |digits| == 3 { assert OctalEnd(s, i + 1, i + 3) == OctalEnd(s, i + 1, i + 4); }
  }

  lemma OneMoreOctal(s: Text, d: Unit)
    requires IsOctal(d) && OctalText(s)
    ensures OctalValue(s + [d]) == 8 * OctalValue(s) + OctalDigit(d)
  {
    assert (s + [d])[..|s|] == s;
  }

  lemma {:induction false} AllOfPrefix(s: Text)
    requires OctalText(s)
    ensures OctalPrefix(s) == s
  {
    if s != [] { AllOfPrefix(s[1..]); }
  }

  lemma OctalMeans(digits: Text)
    requires 1 <= |digits| <= 3 && OctalText(digits)
    ensures OctalValue(OctalPrefix(digits)) == CodeOf(digits)
  {
    AllOfPrefix(digits);
    OctalOfFirst(digits, 0);
    if |digits| >= 2 { OctalOfFirst(digits, 1); }
    if |digits| == 3 { OctalOfFirst(digits, 2); }
    assert digits[..|digits|] == digits;
  }

  lemma OctalOfFirst(digits: Text, n: nat)
    requires n < |digits| && OctalText(digits)
    ensures OctalText(digits[..n]) && OctalText(digits[..n + 1])
    ensures OctalValue(digits[..n + 1]) == 8 * (if n == 0 then 0 else OctalValue(digits[..n])) + digits[n] as int - 48
  {
    OneMoreOctal(digits[..n], digits[n]);
    assert digits[..n + 1] == digits[..n] + [digits[n]];
  }

  lemma FirstPiece(s: Text, i: nat, w: Text, rest: Text)
    requires i <= |s| && s[i..] == w + rest && w != []
    ensures i + |w| <= |s| && s[i] == w[0] && s[i + 1..] == w[1..] + rest && s[i + |w|..] == rest
    ensures |w| == 2 ==> s[i + 1] == w[1]
  {
  }

  lemma OctalEscapeMeans(s: Text, i: nat, digits: Text, rest: Text, limit: int)
    requires limit <= 256 && Fits(Octal(digits), rest) && i <= |s| && s[i..] == [BACKSLASH] + digits + rest
    ensures i < |s| && s[i] == BACKSLASH
    ensures EscapeAt(s, i, limit) == Escape(Emits(Octal(digits), limit), i + 1 + |digits|)
  {
    FirstPiece(s, i, [BACKSLASH] + digits, rest);
    assert s[i + 1..] == digits + rest;
    assert s[i + 1] == s[i + 1..][0] == digits[0];
    OctalEnds(s, i, digits, rest);
    OctalMeans(digits);
  }

  /** An escape means what its piece stands for, and the scan goes on behind it. */
  lemma EscapeMeans(s: Text, i: nat, t: Token, rest: Text, limit: int)
    requires limit <= 256 && !t.Plain? && Fits(t, rest) && i <= |s| && s[i..] == Write(t) + rest
    ensures i < |s| && s[i] == BACKSLASH && EscapeAt(s, i, limit).emitted == Emits(t, limit)
    ensures EscapeAt(s, i, limit).next == if t.Lone? then i + 2 else i + |Write(t)|
  {
    if t.Octal? { OctalEscapeMeans(s, i, t.digits, rest, limit); } else { FirstPiece(s, i, Write(t), rest); }
  }

  /** The scan over the pieces: it breaks off behind an escape that takes it beyond the cap. */
  ghost function Scan(out: Text, ts: seq<Token>, cap: nat, limit: int): Text
    requires limit <= 256
    decreases |ts|
  {
    if ts == [] then out
    else
      var more := out + Emits(ts[0], limit);
      if !ts[0].Plain? && |more| > cap then more else Scan(more, ts[1..], cap, limit)
  }

  /** Reading one piece: where the scan goes on, and with what. */
  lemma ReadOne(s: Text, i: nat, out: Text, t: Token, rest: Text, cap: nat, limit: int) returns (j: nat, more: Text)
    requires limit <= 256 && Fits(t, rest) && i <= |s| && s[i..] == Write(t) + rest
    ensures i < j <= |s| && s[j..] == rest && more == out + Emits(t, limit)
    ensures UnescapeFrom(s, i, out, cap, limit)
         == if !t.Plain? && |more| > cap then more else UnescapeFrom(s, j, more, cap, limit)
  {
    FirstPiece(s, i, Write(t), rest);
    j, more := i + |Write(t)|, out + Emits(t, limit);
    if !t.Plain? {
      EscapeMeans(s, i, t, rest, limit);
      assert t.Lone? ==> i + 1 == |s| && out + [] == out;
    }
  }

  lemma ScanOne(out: Text, ts: seq<Token>, more: Text, cap: nat, limit: int)
    requires limit <= 256 && ts != [] && more == out + Emits(ts[0], limit)
    ensures Scan(out, ts, cap, limit) == if !ts[0].Plain? && |more| > cap then more else Scan(more, ts[1..], cap, limit)
  {
  }

  ghost predicate Scans(s: Text, i: nat, out: Text, ts: seq<Token>, cap: nat, limit: int)
    requires limit <= 256
  {
    UnescapeFrom(s, i, out, cap, limit) == Scan(out, ts, cap, limit)
  }

  lemma ScanStep(s: Text, i: nat, out: Text, ts: seq<Token>, cap: nat, limit: int) returns (j: nat, more: Text)
    requires limit <= 256 && i <= |s| && s[i..] == WriteAll(ts) && ts != [] && Fits(ts[0], WriteAll(ts[1..]))
    ensures i < j <= |s| && s[j..] == WriteAll(ts[1..])
    ensures Scans(s, j, more, ts[1..], cap, limit) ==> Scans(s, i, out, ts, cap, limit)
  {
    j, more := ReadOne(s, i, out, ts[0], WriteAll(ts[1..]), cap, limit);
    ScanOne(out, ts, more, cap, limit);
  }

  lemma {:induction false} UnescapeScans(s: Text, i: nat, out: Text, ts: seq<Token>, cap: nat, limit: int)
    requires limit <= 256 && i <= |s| && s[i..] == WriteAll(ts) && WellWritten(ts)
    ensures Scans(s, i, out, ts, cap, limit)
    decreases |ts|
  {
    if ts != [] {
      var j, more := ScanStep(s, i, out, ts, cap, limit);
      UnescapeScans(s, j, more, ts[1..], cap, limit);
    }
  }

  /** The first n pieces are read: all of them, or up to the first escape that takes the
      output beyond the cap. */
  ghost predicate ReadsUpTo(ts: seq<Token>, n: nat, cap: nat, limit: int)
    requires limit <= 256
  {
    && n <= |ts| && (n < |ts| ==> BreaksAt(ts, n, cap, limit))
    && forall m :: 0 < m < n ==> !BreaksAt(ts, m, cap, limit)
  }

  ghost predicate BreaksAt(ts: seq<Token>, n: nat, cap: nat, limit: int)
    requires limit <= 256
  {
    0 < n <= |ts| && !ts[n - 1].Plain? && |Meaning(ts[..n], limit)| > cap
  }

  lemma {:induction false} ScanReads(ts: seq<Token>, k: nat, cap: nat, limit: int) returns (n: nat)
    requires limit <= 256 && k <= |ts| && forall m :: 0 < m <= k ==> !BreaksAt(ts, m, cap, limit)
    ensures ReadsUpTo(ts, n, cap, limit) && Scan(Meaning(ts[..k], limit), ts[k..], cap, limit) == Meaning(ts[..n], limit)
    decreases |ts| - k
  {
    n := k;
    if k < |ts| {
      assert ts[..k + 1][..k] == ts[..k] && ts[k..][1..] == ts[k + 1..];
      if BreaksAt(ts, k + 1, cap, limit) { n := k + 1; } else { n := ScanReads(ts, k + 1, cap, limit); }
    }
  }

  /** Unescaping reads every piece as what it stands for, up to the first escape that takes
      the output beyond the cap. */
  lemma UnescapeReadsPieces(ts: seq<Token>, cap: nat, limit: int) returns (n: nat)
    requires limit <= 256 && WellWritten(ts)
    ensures ReadsUpTo(ts, n, cap, limit) && Unescape(WriteAll(ts), cap, limit) == Meaning(ts[..n], limit)
  {
    var s := WriteAll(ts);
    assert s[0..] == s && ts[0..] == ts;
    UnescapeScans(s, 0, [], ts, cap, limit);
    n := ScanReads(ts, 0, cap, limit);
  }

  /** The run of octal digits at the front, at most n of them. */
  ghost function OctalRunOf(s: Text, n: nat): (r: nat)
    ensures r <= n && r <= |s| && OctalText(s[..r]) && (r < n && r < |s| ==> !IsOctal(s[r]))
  {
    if n == 0 || s == [] || !IsOctal(s[0]) then 0
    else
      var r := 1 + OctalRunOf(s[1..], n - 1);
      assert s[..r] == [s[0]] + s[1..][..r - 1];
      r
  }

  ghost function FirstToken(s: Text): (t: Token)
    requires s != []
    ensures |Write(t)| <= |s| && s == Write(t) + s[|Write(t)|..] && Fits(t, s[|Write(t)|..])
  {
    if s[0] != BACKSLASH then Plain(s[0])
    else if |s| == 1 then Lone
    else if s[1] == 'n' as int then Named(10)
    else if s[1] == 'r' as int then Named(13)
    else if s[1] == 't' as int then Named(9)
    else if s[1] == OPEN || s[1] == CLOSE || s[1] == BACKSLASH then Named(s[1])
    else if !IsOctal(s[1]) then Odd(s[1])
    else
      var r := OctalRunOf(s[1..], 3);
      assert s == [s[0]] + s[1..][..r] + s[1..][r..];
      Octal(s[1..][..r])
  }

  /** Every text consists of such pieces, so every output is accounted for. */
  lemma {:induction false} EveryTextIsWritten(s: Text) returns (ts: seq<Token>)
    ensures WellWritten(ts) && WriteAll(ts) == s
    decreases |s|
  {
    ts := [];
    if s != [] {
      var t := FirstToken(s);
      var more := EveryTextIsWritten(s[|Write(t)|..]);
      ts := [t] + more;
      assert ts[1..] == more;
    }
  }

  lemma {:induction false} MeaningGrows(ts: seq<Token>, n: nat, limit: int)
    requires limit <= 256 && n <= |ts|
    ensures Meaning(ts[..n], limit) <= Meaning(ts, limit)
    decreases |ts|
  {
    if n < |ts| {
      MeaningGrows(ts[..|ts| - 1], n, limit);
      assert ts[..|ts| - 1][..n] == ts[..n];
    } else {
      assert ts[..n] == ts;
    }
  }

  /** However a text within the cap is escaped, unescaping gives it back; of a longer one
      it gives a prefix beyond the cap. */
  lemma UnescapeInvertsEscape(ts: seq<Token>, cap: nat, limit: int)
    requires limit <= 256 && WellWritten(ts)
    ensures var r := Unescape(WriteAll(ts), cap, limit);
      r <= Meaning(ts, limit) && (r == Meaning(ts, limit) || |r| > cap)
    ensures |Meaning(ts, limit)| <= cap ==> Unescape(WriteAll(ts), cap, limit) == Meaning(ts, limit)
  {
    var n := UnescapeReadsPieces(ts, cap, limit);
    MeaningGrows(ts, n, limit);
    assert ts[..|ts|] == ts;
  }

  /** In pdf-metadata.ts: up to 500 characters, octal codes for ASCII .. */
  lemma MetadataRoundTrip(ts: seq<Token>)
    requires WellWritten(ts) && |Meaning(ts, METADATA_OCTAL_LIMIT)| <= MAX_VALUE_LEN
    ensures Unescape(WriteAll(ts), MAX_VALUE_LEN, METADATA_OCTAL_LIMIT) == Meaning(ts, METADATA_OCTAL_LIMIT)
  {
    UnescapeInvertsEscape(ts, MAX_VALUE_LEN, METADATA_OCTAL_LIMIT);
  }

  /** .. and in pdf-text.ts: up to 2 MiB, octal codes for every printable byte. */
  lemma TextRoundTrip(ts: seq<Token>)
    requires WellWritten(ts) && |Meaning(ts, TEXT_OCTAL_LIMIT)| <= MAX_TEXT_OUT
    ensures Unescape(WriteAll(ts), MAX_TEXT_OUT, TEXT_OCTAL_LIMIT) == Meaning(ts, TEXT_OCTAL_LIMIT)
  {
    UnescapeInvertsEscape(ts, MAX_TEXT_OUT, TEXT_OCTAL_LIMIT);
  }

  /** Every text has such an escaping: names where there are names. */
  ghost function Tokens(s: Text): (r: seq<Token>)
    ensures |r| == |s|
  {
    seq(|s|, i requires 0 <= i < |s| => if HasName(s[i]) then Named(s[i]) else Plain(s[i]))
  }

  lemma {:induction false} TokensMean(s: Text, limit: int)
    requires limit <= 256
    ensures Meaning(Tokens(s), limit) == s
  {
    if s != [] {
      var init := s[..|s| - 1];
      TokensMean(init, limit);
      assert Tokens(s)[..|s| - 1] == Tokens(init) && s == init + [s[|s| - 1]];
    }
  }

  lemma {:induction false} TokensWellWritten(ts: seq<Token>)
    requires forall k :: 0 <= k < |ts| ==> (ts[k].Plain? && ts[k].c != BACKSLASH) || (ts[k].Named? && HasName(ts[k].c))
    ensures WellWritten(ts)
  {
    if ts != [] { TokensWellWritten(ts[1..]); }
  }

  lemma LiteralRoundTrip(s: Text, cap: nat, limit: int)
    requires limit <= 256 && |s| <= cap
    ensures WellWritten(Tokens(s)) && Unescape(WriteAll(Tokens(s)), cap, limit) == s
  {
    TokensWellWritten(Tokens(s));
    TokensMean(s, limit);
    UnescapeInvertsEscape(Tokens(s), cap, limit);
  }

  /** Unescaping never lengthens its input. */
  lemma {:induction false} UnescapeShrinks(s: Text, i: nat, out: Text, cap: nat, limit: int)
    requires limit <= 256 && i <= |s|
    ensures |UnescapeFrom(s, i, out, cap, limit)| <= |out| + (|s| - i)
    decreases |s| - i
  {
    if i < |s| {
      if s[i] != BACKSLASH {
        UnescapeShrinks(s, i + 1, out + [s[i]], cap, limit);
      } else {
        var e := EscapeAt(s, i, limit);
        if e.next <= |s| { UnescapeShrinks(s, e.next, out + e.emitted, cap, limit); }
      }
    }
  }

  // --------------------------------------------------------------- hex strings

  predicate IsSpace(u: Unit) {
    9 <= u <= 13 || u == 32 || u == 160 || u == 0x1680 || 0x2000 <= u <= 0x200a
    || u == 0x2028 || u == 0x2029 || u == 0x202f || u == 0x205f || u == 0x3000 || u == 0xfeff
  }

  predicate IsHex(u: Unit) {
    '0' as int <= u <= '9' as int || 'a' as int <= u <= 'f' as int || 'A' as int <= u <= 'F' as int
  }

  function HexValue(u: Unit): (r: int)
    requires IsHex(u)
    ensures 0 <= r < 16
  {
    if u <= '9' as int then u - '0' as int
    else if u <= 'F' as int then u - 'A' as int + 10
    else u - 'a' as int + 10
  }

  /** The three kinds of character, by their codes. */
  lemma CharacterCodes(u: Unit)
    ensures IsOctal(u) <==> 48 <= u <= 55
    ensures IsHex(u) <==> 48 <= u <= 57 || 65 <= u <= 70 || 97 <= u <= 102
    ensures IsSpace(u) <==>
      u in {9, 10, 11, 12, 13, 32, 160, 0x1680, 0x2000, 0x2001, 0x2002, 0x2003, 0x2004, 0x2005, 0x2006, 0x2007, 0x2008,
            0x2009, 0x200a, 0x2028, 0x2029, 0x202f, 0x205f, 0x3000, 0xfeff}
  {
  }

  ghost predicate HexOrSpace(s: Text) { forall i :: 0 <= i < |s| ==> IsHex(s[i]) || IsSpace(s[i]) }

  ghost predicate HexText(s: Text) { forall i :: 0 <= i < |s| ==> IsHex(s[i]) }

  /** `hex.replace(/\s/g, '')`. */
  function Strip(s: Text): (r: Text)
    requires HexOrSpace(s)
    ensures HexText(r)
  {
    if s == [] then [] else (if IsSpace(s[0]) then [] else [s[0]]) + Strip(s[1..])
  }

  /** White space goes, digits stay, character by character. */
  lemma {:induction false} StripAdds(a: Text, b: Text)
    requires HexOrSpace(a)
    requires HexOrSpace(b)
    ensures Strip(a + b) == Strip(a) + Strip(b)
  {
    if a == [] {
      assert a + b == b;
    } else {
      StripAdds(a[1..], b);
      StripFirst(a, b);
    }
  }

  lemma StripFirst(a: Text, b: Text)
    requires a != [] && HexOrSpace(a) && HexOrSpace(b)
    ensures var kept := if IsSpace(a[0]) then [] else [a[0]];
      Strip(a + b) == kept + Strip(a[1..] + b) && Strip(a) + Strip(b) == kept + (Strip(a[1..]) + Strip(b))
  {
    assert (a + b)[0] == a[0] && (a + b)[1..] == a[1..] + b;
  }

  lemma StripOne(u: Unit)
    requires IsHex(u) || IsSpace(u)
    ensures Strip([u]) == if IsHex(u) then [u] else []
  {
    assert [u][1..] == [];
  }

  /** The number the digits at i, i + 1, .. denote, for a group of two or four. */
  function GroupValue(s: Text, i: nat, width: nat): (r: Unit)
    requires HexText(s) && i + width <= |s| && (width == 2 || width == 4)
  {
    if width == 2 then 16 * HexValue(s[i]) + HexValue(s[i + 1])
    else 4096 * HexValue(s[i]) + 256 * HexValue(s[i + 1]) + 16 * HexValue(s[i + 2]) + HexValue(s[i + 3])
  }

  /** The groups from position i on whose value is at least `least`; a short last group
      is dropped. */
  function Groups(s: Text, i: nat, width: nat, least: int): Text
    requires HexText(s) && (width == 2 || width == 4)
    decreases |s| - i
  {
    if i + width > |s| then []
    else
      (if GroupValue(s, i, width) >= least then [GroupValue(s, i, width)] else [])
      + Groups(s, i + width, width, least)
  }

  function Take(s: Text, n: nat): Text { if |s| <= n then s else s[..n] }

  predicate HasBom(s: Text)
    requires HexText(s)
  {
    |s| >= 4 && GroupValue(s, 0, 4) == 0xFEFF
  }

  /** Big-endian UTF-16 behind FEFF, otherwise bytes; zero units and control bytes go. */
  function Decoded(hex: Text): Text
    requires HexOrSpace(hex)
  {
    var s := Strip(hex);
    if HasBom(s) then Groups(s[4..], 0, 4, 1) else Groups(s, 0, 2, 32)
  }

  lemma GroupsUnfold(s: Text, i: nat, width: nat, least: int, out: Text)
    requires HexText(s) && (width == 2 || width == 4) && i + width <= |s|
    ensures var code := GroupValue(s, i, width);
      out + Groups(s, i, width, least)
      == (if code >= least then out + [code] else out) + Groups(s, i + width, width, least)
  {
    var code, rest := GroupValue(s, i, width), Groups(s, i + width, width, least);
    assert out + ([code] + rest) == (out + [code]) + rest;
    assert [] + rest == rest;
  }

  lemma TakeFirst(s: Text, rest: Text)
    ensures Take(s + rest, |s|) == s
  {
  }

  /** One of the two accumulation loops. */
  method DecodeGroups(s: Text, width: nat, least: int, cap: nat) returns (out: Text)
    requires HexText(s) && (width == 2 || width == 4) && cap >= 1
    ensures out == Take(Groups(s, 0, width, least), cap)
  {
    out := [];
    var i := 0;
    while i < |s| - (width - 1)
      invariant 0 <= i && |out| < cap
      invariant out + Groups(s, i, width, least) == Groups(s, 0, width, least)
    {
      var code := GroupValue(s, i, width);
      GroupsUnfold(s, i, width, least, out);
      if code >= least { out := out + [code]; }
      if |out| >= cap {
        TakeFirst(out, Groups(s, i + width, width, least));
        return;
      }
      i := i + width;
    }
    assert out + [] == out;
  }

  lemma StartsWithFeff(s: Text)
    requires HexText(s) && |s| >= 4
    ensures HasBom(s) <==> (s[0] in {'F' as int, 'f' as int} && s[1] in {'E' as int, 'e' as int}
                            && s[2] in {'F' as int, 'f' as int} && s[3] in {'F' as int, 'f' as int})
  {
  }

  /** `decodePdfHex`, on the digits and white space its callers match. */
  method DecodePdfHex(hex: Text, cap: nat) returns (out: Text)
    requires HexOrSpace(hex)
    requires cap >= 1
    ensures out == Take(Decoded(hex), cap)
  {
    var stripped := Strip(hex);
    if |stripped| == 0 { return []; }
    if HasBom(stripped) && |stripped| >= 4 {
      out := DecodeGroups(stripped[4..], 4, 1, cap);
    } else {
      out := DecodeGroups(stripped, 2, 32, cap);
    }
  }

  /** The character is the hexadecimal digit of value v, in either case. */
  ghost predicate IsDigitOf(u: Unit, v: int) {
    0 <= v < 16 && (u == "0123456789abcdef"[v] as int || u == "0123456789ABCDEF"[v] as int)
  }

  lemma HexValueMeans(u: Unit, v: int)
    requires IsHex(u)
    ensures HexValue(u) == v <==> IsDigitOf(u, v)
  {
    assert forall k :: 0 <= k < 16 ==> "0123456789abcdef"[k] as int == if k < 10 then 48 + k else 87 + k;
    assert forall k :: 0 <= k < 16 ==> "0123456789ABCDEF"[k] as int == if k < 10 then 48 + k else 55 + k;
  }

  /** The digits of `s` spell the units of `u`, in groups of the given width; what is left
      is too short for another group. */
  ghost predicate Spells(s: Text, u: Text, width: nat)
    requires width == 2 || width == 4
  {
    width * |u| <= |s| < width * |u| + width && forall k :: 0 <= k < |u| ==> SpellsNth(s, u, width, k)
  }

  ghost predicate SpellsNth(s: Text, u: Text, width: nat, k: nat)
    requires k < |u|
  {
    SpellsUnit(s, u[k], width * k, width)
  }

  /** The digits from position i on, most significant first. */
  ghost predicate SpellsUnit(s: Text, c: Unit, i: nat, width: nat) {
    && i + width <= |s|
    && (width == 2 ==> IsDigitOf(s[i], c / 16) && IsDigitOf(s[i + 1], c % 16))
    && (width == 4 ==>
          && IsDigitOf(s[i], c / 4096) && IsDigitOf(s[i + 1], c / 256 % 16)
          && IsDigitOf(s[i + 2], c / 16 % 16) && IsDigitOf(s[i + 3], c % 16))
  }

  lemma TwoDigits(c: Unit, a: int, b: int)
    ensures 0 <= a < 16 && 0 <= b < 16 ==> (c == 16 * a + b <==> a == c / 16 && b == c % 16)
  {
  }

  lemma FourDigits(c: Unit, high: int, low: int)
    ensures 0 <= low < 256 ==> (c == 256 * high + low <==> high == c / 256 && low == c % 256)
  {
  }

  lemma DigitsOfBytes(c: Unit)
    ensures c / 256 / 16 == c / 4096 && c % 256 / 16 == c / 16 % 16 && c % 256 % 16 == c % 16
  {
  }

  /** The value of a group is the unit its digits spell. */
  lemma SpelledValue(s: Text, c: Unit, i: nat, width: nat)
    requires HexText(s) && (width == 2 || width == 4) && i + width <= |s|
    ensures SpellsUnit(s, c, i, width) <==> GroupValue(s, i, width) == c
  {
    if width == 2 { SpelledByTwo(s, c, i); } else { SpelledByFour(s, c, i); }
  }

  lemma SpelledByTwo(s: Text, c: Unit, i: nat)
    requires HexText(s) && i + 2 <= |s|
    ensures SpellsUnit(s, c, i, 2) <==> GroupValue(s, i, 2) == c
  {
    HexValueMeans(s[i], c / 16);
    HexValueMeans(s[i + 1], c % 16);
    TwoDigits(c, HexValue(s[i]), HexValue(s[i + 1]));
  }

  lemma SpelledByFour(s: Text, c: Unit, i: nat)
    requires HexText(s) && i + 4 <= |s|
    ensures SpellsUnit(s, c, i, 4) <==> GroupValue(s, i, 4) == c
  {
    SpelledByTwo(s, c / 256, i);
    SpelledByTwo(s, c % 256, i + 2);
    FourDigits(c, GroupValue(s, i, 2), GroupValue(s, i + 2, 2));
    DigitsOfBytes(c);
  }

  /** The units that reach the least code. */
  ghost function Kept(u: Text, least: int): Text {
    if u == [] then [] else (if u[0] >= least then [u[0]] else []) + Kept(u[1..], least)
  }

  lemma {:induction false} AllKept(u: Text, least: int)
    requires forall k :: 0 <= k < |u| ==> u[k] >= least
    ensures Kept(u, least) == u
  {
    if u != [] { AllKept(u[1..], least); }
  }

  lemma SpelledNth(s: Text, u: Text, width: nat, k: nat)
    requires HexText(s) && (width == 2 || width == 4) && k < |u| && width * k + width <= |s|
    ensures SpellsNth(s, u, width, k) <==> GroupValue(s, width * k, width) == u[k]
  {
    SpelledValue(s, u[k], width * k, width);
  }

  lemma NextGroup(width: nat, k: nat)
    ensures width * (k + 1) == width * k + width
  {
  }

  lemma {:induction false} GroupsReadBack(s: Text, u: Text, width: nat, least: int, k: nat, i: nat)
    requires HexText(s) && (width == 2 || width == 4) && Spells(s, u, width) && k <= |u| && i == width * k
    ensures Groups(s, i, width, least) == Kept(u[k..], least)
    decreases |u| - k
  {
    if k < |u| {
      GroupAt(s, u, width, k, i);
      GroupsReadBack(s, u, width, least, k + 1, i + width);
      GroupReadBack(s, u[k..], width, least, i);
      assert u[k..][1..] == u[k + 1..];
    }
  }

  lemma GroupAt(s: Text, u: Text, width: nat, k: nat, i: nat)
    requires HexText(s) && (width == 2 || width == 4) && Spells(s, u, width) && k < |u| && i == width * k
    ensures i + width <= |s| && GroupValue(s, i, width) == u[k] && i + width == width * (k + 1)
  {
    assert SpellsNth(s, u, width, k);
    SpelledNth(s, u, width, k);
    NextGroup(width, k);
  }

  lemma GroupReadBack(s: Text, u: Text, width: nat, least: int, i: nat)
    requires HexText(s) && (width == 2 || width == 4) && u != [] && i + width <= |s|
    requires GroupValue(s, i, width) == u[0] && Groups(s, i + width, width, least) == Kept(u[1..], least)
    ensures Groups(s, i, width, least) == Kept(u, least)
  {
  }

  /** Digits behind the mark FEFF are read as UTF-16BE, whatever their case and the white
      space between them: zero units and a short last group are dropped .. */
  lemma Utf16HexReads(hex: Text, u: Text)
    requires HexOrSpace(hex)
    requires SpellsUnit(Strip(hex), 0xFEFF, 0, 4) && Spells(Strip(hex)[4..], u, 4)
    ensures Decoded(hex) == Kept(u, 1)
  {
    SpelledValue(Strip(hex), 0xFEFF, 0, 4);
    GroupsReadBack(Strip(hex)[4..], u, 4, 1, 0, 0);
    assert u[0..] == u;
  }

  /** .. so that UTF-16BE text without zero units survives. */
  lemma Utf16HexRoundTrip(hex: Text, u: Text)
    requires HexOrSpace(hex)
    requires SpellsUnit(Strip(hex), 0xFEFF, 0, 4) && Spells(Strip(hex)[4..], u, 4)
    requires forall k :: 0 <= k < |u| ==> u[k] >= 1
    ensures Decoded(hex) == u
  {
    Utf16HexReads(hex, u);
    AllKept(u, 1);
  }

  lemma ByteTextHasNoBom(s: Text, u: Text)
    requires HexText(s) && Spells(s, u, 2) && !(|u| >= 2 && u[0] == 0xFE && u[1] == 0xFF)
    ensures !HasBom(s)
  {
    if |u| >= 2 {
      assert SpellsNth(s, u, 2, 0) && SpellsNth(s, u, 2, 1);
      SpelledValue(s, u[0], 0, 2);
      SpelledValue(s, u[1], 2, 2);
      assert GroupValue(s, 0, 4) == 256 * GroupValue(s, 0, 2) + GroupValue(s, 2, 2);
    }
  }

  /** Other digits are read as bytes: control characters and an odd last digit are dropped .. */
  lemma ByteHexReads(hex: Text, u: Text)
    requires HexOrSpace(hex)
    requires Spells(Strip(hex), u, 2) && !(|u| >= 2 && u[0] == 0xFE && u[1] == 0xFF)
    ensures Decoded(hex) == Kept(u, 32)
  {
    ByteTextHasNoBom(Strip(hex), u);
    GroupsReadBack(Strip(hex), u, 2, 32, 0, 0);
    assert u[0..] == u;
  }

  /** .. so that byte text without control characters survives. */
  lemma ByteHexRoundTrip(hex: Text, u: Text)
    requires HexOrSpace(hex)
    requires Spells(Strip(hex), u, 2) && forall k :: 0 <= k < |u| ==> u[k] >= 32
    requires !(|u| >= 2 && u[0] == 0xFE && u[1] == 0xFF)
    ensures Decoded(hex) == u
  {
    ByteHexReads(hex, u);
    AllKept(u, 32);
  }

  /** Every digit text spells units, so every output is accounted for. */
  lemma EveryTextSpells(s: Text, width: nat) returns (u: Text)
    requires HexText(s) && (width == 2 || width == 4)
    ensures Spells(s, u, width)
  {
    u := [];
    while width * |u| + width <= |s|
      invariant width * |u| <= |s| && forall k :: 0 <= k < |u| ==> SpellsNth(s, u, width, k)
      decreases |s| - |u|
    {
      ghost var more := u + [GroupValue(s, width * |u|, width)];
      forall k | 0 <= k < |more| ensures SpellsNth(s, more, width, k) {
        if k < |u| { assert SpellsNth(s, u, width, k); } else { SpelledNth(s, more, width, k); }
      }
      u := more;
    }
  }
}
