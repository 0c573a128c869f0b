/**
 `mergeWithExisting` (scripts/generate-pattern-catalogue.ts) and `mergeAuto`
 (scripts/generate-worker-runbooks.ts), which share one algorithm: replace the
 auto-generated block of an existing document, keep everything around it.
 */
module MarkerMerge {

  const BEGIN: string := "<!-- BEGIN auto-generated -->"
  const END: string := "<!-- END auto-generated -->"

  // ----------------------------------------------------------- string search

  predicate At(s: string, p: string, i: int) {
    0 <= i && i + |p| <= |s| && s[i..i + |p|] == p
  }

  function IndexFrom(s: string, p: string, i: nat): (r: int)
    requires i <= |s|
    ensures r == -1 || i <= r
    ensures r != -1 ==> At(s, p, r)
    ensures forall j :: i <= j && (r == -1 || j < r) ==> !At(s, p, j)
    decreases |s| - i
  {
    if At(s, p, i) then i else if i == |s| then -1 else IndexFrom(s, p, i + 1)
  }

  /** `s.indexOf(p)`: the first occurrence, or -1. */
  function IndexOf(s: string, p: string): (r: int)
    ensures r == -1 || At(s, p, r)
    ensures forall j :: (r == -1 || j < r) ==> !At(s, p, j)
  {
    IndexFrom(s, p, 0)
  }

  lemma FirstOccurrence(s: string, p: string, i: int)
    requires At(s, p, i) && forall j :: 0 <= j < i ==> !At(s, p, j)
    ensures IndexOf(s, p) == i
  {
  }

  /** `s.slice(lo, hi)` for non-negative bounds. */
  function Slice(s: string, lo: nat, hi: nat): string {
    var h := if hi < |s| then hi else |s|;
    if lo < h then s[lo..h] else ""
  }

  // ------------------------------------------------------------------- merge

  function Merge(existing: string, regenerated: string): string {
    var begin := IndexOf(existing, BEGIN);
    var end := IndexOf(existing, END);
    if begin == -1 || end == -1 || end < begin then regenerated
    else
      var newBegin := IndexOf(regenerated, BEGIN);
      var newEnd := IndexOf(regenerated, END) + |END|;
      if newBegin == -1 || newEnd == -1 then regenerated
      else
        Slice(existing, 0, begin) +
        Slice(regenerated, newBegin, newEnd) +
        Slice(existing, end + |END|, |existing|)
  }

  /** The first opening marker comes before the first closing one. */
  predicate HasBlock(s: string) {
    var b, n := IndexOf(s, BEGIN), IndexOf(s, END);
    b != -1 && n != -1 && b <= n
  }

  function Before(s: string): string
    requires HasBlock(s)
  {
    s[..IndexOf(s, BEGIN)]
  }

  function Block(s: string): string
    requires HasBlock(s)
  {
    s[IndexOf(s, BEGIN)..IndexOf(s, END) + |END|]
  }

  function After(s: string): string
    requires HasBlock(s)
  {
    s[IndexOf(s, END) + |END|..]
  }

  // ------------------------------------------------------- markers never overlap

  predicate IsMarker(p: string) { p == BEGIN || p == END }

  /** Both markers open with a character they do not use again, so neither has a
      border and neither can start inside the other. */
  lemma MarkerOpensOnce(p: string)
    requires IsMarker(p)
    ensures |p| > 5 && p[0] == '<' && (p == BEGIN <==> p[5] == 'B') && forall k :: 0 < k < |p| ==> p[k] != '<'
    ensures |BEGIN| == 29 && |END| == 27
  {
  }

  /** Two markers in one text are the same occurrence or do not touch. */
  lemma MarkersDoNotOverlap(s: string, p: string, i: int, q: string, j: int)
    requires IsMarker(p) && IsMarker(q) && At(s, p, i) && At(s, q, j)
    ensures (i == j && p == q) || i + |p| <= j || j + |q| <= i
    ensures |BEGIN| == 29 && |END| == 27
  {
    MarkerOpensOnce(p);
    MarkerOpensOnce(q);
    AtChars(s, p, i);
    AtChars(s, q, j);
    assert s[i] == '<' && s[j] == '<' && s[i + 5] == p[5] && s[j + 5] == q[5];
    assert forall k :: i < k < i + |p| ==> s[k] != '<';
    assert forall k :: j < k < j + |q| ==> s[k] != '<';
  }

  lemma AtChars(s: string, p: string, i: int)
    requires 0 <= i && i + |p| <= |s|
    ensures At(s, p, i) <==> forall k :: i <= k < i + |p| ==> s[k] == p[k - i]
  {
  }

  /** Occurrences inside a shared stretch of two texts correspond. */
  lemma AtShared(s: string, t: string, p: string, i: int, j: int, lo: int, hi: int)
    requires 0 <= lo <= hi <= |s| && lo <= i && i + |p| <= hi
    requires 0 <= lo + j - i && hi + j - i <= |t|
    requires s[lo..hi] == t[lo + j - i..hi + j - i]
    ensures At(s, p, i) <==> At(t, p, j)
  {
    AtChars(s, p, i);
    AtChars(t, p, j);
    var d := j - i;
    assert forall k :: lo <= k < hi ==> s[k] == s[lo..hi][k - lo];
    assert forall k :: lo + d <= k < hi + d ==> t[k] == t[lo + d..hi + d][k - d - lo];
    if At(s, p, i) {
      forall k | j <= k < j + |p| ensures t[k] == p[k - j] { assert t[k] == s[k - d]; }
    }
    if At(t, p, j) {
      forall k | i <= k < i + |p| ensures s[k] == p[k - i] { assert s[k] == t[k + d]; }
    }
  }

  // ------------------------------------------------------------------ the splice

  lemma BlockShape(s: string)
    requires HasBlock(s)
    ensures IndexOf(s, BEGIN) + |BEGIN| <= IndexOf(s, END)
    ensures s == Before(s) + Block(s) + After(s)
    ensures |Before(s)| == IndexOf(s, BEGIN) && |Block(s)| == IndexOf(s, END) + |END| - IndexOf(s, BEGIN)
  {
    MarkersDoNotOverlap(s, BEGIN, IndexOf(s, BEGIN), END, IndexOf(s, END));
  }

  lemma MergeSplices(e: string, r: string)
    requires HasBlock(e) && HasBlock(r)
    ensures Merge(e, r) == Spliced(e, r)
  {
    AroundBlock(e);
    assert Slice(r, IndexOf(r, BEGIN), IndexOf(r, END) + |END|) == Block(r);
  }

  function Spliced(e: string, r: string): string
    requires HasBlock(e) && HasBlock(r)
  {
    Before(e) + Block(r) + After(e)
  }

  /** The spliced text is the existing one up to the block, then the regenerated block. */
  lemma SplicedParts(e: string, r: string)
    requires HasBlock(e) && HasBlock(r)
    ensures var m, b, nb, ne := Spliced(e, r), IndexOf(e, BEGIN), IndexOf(r, BEGIN), IndexOf(r, END) + |END|;
      && b + ne - nb <= |m| && m[0..b] == e[0..b] && m[b..b + ne - nb] == r[nb..ne]
      && m[b + ne - nb..] == After(e)
  {
  }

  /** In the spliced text the first opening marker is the spliced one. */
  lemma SplicedBegin(e: string, r: string)
    requires HasBlock(e) && HasBlock(r)
    ensures IndexOf(Spliced(e, r), BEGIN) == IndexOf(e, BEGIN)
  {
    var m, b := Spliced(e, r), IndexOf(e, BEGIN);
    var nb, ne := IndexOf(r, BEGIN), IndexOf(r, END) + |END|;
    BlockShape(r);
    SplicedParts(e, r);
    AtShared(r, m, BEGIN, nb, b, nb, ne);
    forall i | 0 <= i < b ensures !At(m, BEGIN, i) {
      if i + |BEGIN| <= b { AtShared(e, m, BEGIN, i, i, 0, b); }
      if At(m, BEGIN, i) { MarkersDoNotOverlap(m, BEGIN, i, BEGIN, b); }
    }
    FirstOccurrence(m, BEGIN, b);
  }

  /** And the first closing marker is the spliced one. */
  lemma SplicedEnd(e: string, r: string)
    requires HasBlock(e) && HasBlock(r)
    ensures IndexOf(Spliced(e, r), END) == IndexOf(e, BEGIN) + IndexOf(r, END) - IndexOf(r, BEGIN)
  {
    var m, b := Spliced(e, r), IndexOf(e, BEGIN);
    var nb, ne := IndexOf(r, BEGIN), IndexOf(r, END);
    var n := b + ne - nb;
    BlockShape(r);
    BlockShape(e);
    SplicedParts(e, r);
    SplicedBegin(e, r);
    AtShared(r, m, END, ne, n, nb, ne + |END|);
    forall j | 0 <= j < n ensures !At(m, END, j) {
      if j + |END| <= b { AtShared(e, m, END, j, j, 0, b); }
      if b <= j { AtShared(r, m, END, nb + j - b, j, nb, ne + |END|); }
      if At(m, END, j) { MarkersDoNotOverlap(m, END, j, BEGIN, b); }
    }
    FirstOccurrence(m, END, n);
  }

  /** Merging replaces the block and keeps the text around it. */
  lemma MergeKeepsTheRest(e: string, r: string)
    requires HasBlock(e) && HasBlock(r)
    ensures var m := Merge(e, r);
      HasBlock(m) && Before(m) == Before(e) && Block(m) == Block(r) && After(m) == After(e)
  {
    MergeSplices(e, r);
    SplicedBegin(e, r);
    SplicedEnd(e, r);
    SplicedParts(e, r);
    BlockShape(r);
  }

  /** Only the last regeneration counts. */
  lemma LastMergeWins(e: string, r1: string, r2: string)
    requires HasBlock(e) && HasBlock(r1) && HasBlock(r2)
    ensures Merge(Merge(e, r1), r2) == Merge(e, r2)
  {
    MergeKeepsTheRest(e, r1);
    MergeSplices(Merge(e, r1), r2);
    MergeSplices(e, r2);
  }

  /** Merging twice is merging once, for every existing document. */
  lemma MergeIdempotent(e: string, r: string)
    requires HasBlock(r)
    ensures Merge(Merge(e, r), r) == Merge(e, r)
  {
    if HasBlock(e) {
      LastMergeWins(e, r, r);
    } else {
      MergeSplices(r, r);
      BlockShape(r);
    }
  }

  /** All cases. A document without a block, or a regeneration without an opening marker,
      gives the regeneration. Otherwise the text around the block is kept, and what stands
      between is the new block; nothing, if the new markers are the wrong way round; and
      without a closing marker what lies in front of position 26. */
  lemma MergeCases(e: string, r: string)
    ensures !HasBlock(e) || IndexOf(r, BEGIN) == -1 ==> Merge(e, r) == r
    ensures HasBlock(e) && HasBlock(r) ==> Merge(e, r) == Before(e) + Block(r) + After(e)
    ensures HasBlock(e) && 0 <= IndexOf(r, END) < IndexOf(r, BEGIN) ==> Merge(e, r) == Before(e) + After(e)
    ensures HasBlock(e) && 0 <= IndexOf(r, BEGIN) && IndexOf(r, END) == -1 ==>
      Merge(e, r) == Before(e) + Slice(r, IndexOf(r, BEGIN), 26) + After(e)
  {
    if !HasBlock(e) || IndexOf(r, BEGIN) == -1 {
      MergeOfNothing(e, r);
    } else if HasBlock(r) {
      MergeSplices(e, r);
    } else {
      MergeWithoutBlock(e, r);
      assert Before(e) + "" == Before(e);
    }
  }

  lemma MergeOfNothing(e: string, r: string)
    requires !HasBlock(e) || IndexOf(r, BEGIN) == -1
    ensures Merge(e, r) == r
  {
  }

  lemma AroundBlock(e: string)
    requires HasBlock(e)
    ensures Slice(e, 0, IndexOf(e, BEGIN)) == Before(e) && Slice(e, IndexOf(e, END) + |END|, |e|) == After(e)
  {
    assert At(e, BEGIN, IndexOf(e, BEGIN)) && At(e, END, IndexOf(e, END));
  }

  lemma MergeWithoutBlock(e: string, r: string)
    requires HasBlock(e) && IndexOf(r, BEGIN) != -1 && IndexOf(r, END) < IndexOf(r, BEGIN)
    ensures Merge(e, r) ==
      Before(e) + (if IndexOf(r, END) == -1 then Slice(r, IndexOf(r, BEGIN), 26) else "") + After(e)
  {
    MarkerOpensOnce(END);
    if IndexOf(r, END) != -1 { MarkersDoNotOverlap(r, BEGIN, IndexOf(r, BEGIN), END, IndexOf(r, END)); }
    AroundBlock(e);
  }

  // ------------------------------------------------- which texts merge stably

  /** The missing-closing-marker guard compares the wrong value: it never fires. */
  lemma EndGuardNeverFires(r: string)
    ensures IndexOf(r, END) + |END| != -1
  {
  }

  /** Regeneration is idempotent on every document exactly when the regenerated text
      has its markers in order, or no opening marker at all. */
  lemma IdempotentIff(r: string)
    ensures (forall e :: Merge(Merge(e, r), r) == Merge(e, r)) <==> HasBlock(r) || IndexOf(r, BEGIN) == -1
  {
    if HasBlock(r) {
      forall e ensures Merge(Merge(e, r), r) == Merge(e, r) { MergeIdempotent(e, r); }
    } else if IndexOf(r, BEGIN) != -1 {
      UnstableMerge(r);
      var e := BEGIN + END;
      assert Merge(Merge(e, r), r) != Merge(e, r);
    }
  }

  lemma EmptyBlock()
    ensures IndexOf(BEGIN + END, BEGIN) == 0 && IndexOf(BEGIN + END, END) == |BEGIN|
  {
    var e := BEGIN + END;
    MarkerOpensOnce(BEGIN);
    assert e[0..|BEGIN|] == BEGIN && e[|BEGIN|..] == END;
    FirstOccurrence(e, BEGIN, 0);
    forall j | 0 <= j < |BEGIN| ensures !At(e, END, j) {
      if At(e, END, j) { MarkersDoNotOverlap(e, END, j, BEGIN, 0); }
    }
    FirstOccurrence(e, END, |BEGIN|);
  }

  /** Otherwise the smallest document with a block loses it on the first merge and is
      overwritten on the second. */
  lemma UnstableMerge(r: string)
    requires !HasBlock(r) && IndexOf(r, BEGIN) != -1
    ensures Merge(Merge(BEGIN + END, r), r) != Merge(BEGIN + END, r)
  {
    var e, nb, ne := BEGIN + END, IndexOf(r, BEGIN), IndexOf(r, END);
    EmptyBlock();
    var m := Merge(e, r);
    assert m == Slice(r, nb, ne + |END|);
    if ne != -1 { MarkersDoNotOverlap(r, BEGIN, nb, END, ne); }
    assert |m| < |END|;
    assert IndexOf(m, END) == -1;
    assert Merge(m, r) == r && |r| >= |BEGIN|;
  }
}
