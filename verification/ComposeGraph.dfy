/**
 The dependency graph of a compose file as scripts/check-compose-deps.ts sees it, and
 the order in which a depth-first search meets its paths, told from the order of the
 services and of their `depends_on` lists alone.
 */
module ComposeGraph {
  import opened JsStrings

  datatype Service = Service(name: string, startLine: nat, dependsOn: seq<string>)

  type Graph = map<string, Service>

  /** An edge the search follows: known names only, self-loops removed. */
  predicate DependsOn(g: Graph, u: string, v: string) {
    u in g && v in g && u != v && v in g[u].dependsOn
  }

  ghost predicate ClosedWalk(g: Graph, p: seq<string>) {
    && |p| >= 2
    && p[0] == p[|p| - 1]
    && forall i :: 0 <= i < |p| - 1 ==> DependsOn(g, p[i], p[i + 1])
  }

  ghost predicate Cyclic(g: Graph) {
    exists p :: ClosedWalk(g, p)
  }

  /** A closed walk that repeats only its end point. */
  ghost predicate Cycle(g: Graph, p: seq<string>) {
    ClosedWalk(g, p) && Distinct(p[..|p| - 1])
  }

  /** A path that meets no service twice. */
  ghost predicate Path(g: Graph, q: seq<string>) {
    && q != [] && q[0] in g && Distinct(q)
    && forall i :: 0 <= i < |q| - 1 ==> DependsOn(g, q[i], q[i + 1])
  }

  /** No service lists a dependency twice. */
  ghost predicate NoRepeats(g: Graph) {
    forall u :: u in g ==> Distinct(g[u].dependsOn)
  }

  // ------------------------------------------------------------------ the order

  /** The first place of `x`, or the length. */
  function Pos(s: seq<string>, x: string): (r: nat)
    ensures r <= |s| && (r < |s| ==> s[r] == x)
    ensures forall i :: 0 <= i < r ==> s[i] != x
  {
    if s == [] || s[0] == x then 0 else 1 + Pos(s[1..], x)
  }

  /** Two walks part at place k, and the first of them takes the entry listed earlier. */
  ghost predicate PartsAt(g: Graph, roots: seq<string>, a: seq<string>, b: seq<string>, k: nat) {
    && k < |a| && k < |b| && a[..k] == b[..k]
    && if k == 0 then Pos(roots, a[0]) < Pos(roots, b[0])
       else a[k - 1] in g && Pos(g[a[k - 1]].dependsOn, a[k]) < Pos(g[a[k - 1]].dependsOn, b[k])
  }

  /** The search gets to `a` before it gets to `b`. */
  ghost predicate Before(g: Graph, roots: seq<string>, a: seq<string>, b: seq<string>) {
    exists k: nat {:trigger PartsAt(g, roots, a, b, k)} :: PartsAt(g, roots, a, b, k)
  }

  /** The first of all paths to its last service. */
  ghost predicate FirstPath(g: Graph, roots: seq<string>, p: seq<string>) {
    && Path(g, p)
    && forall q {:trigger Path(g, q)} :: Path(g, q) && q[|q| - 1] == p[|p| - 1] ==> !Before(g, roots, q, p)
  }

  ghost predicate AllRoots(g: Graph, roots: seq<string>) {
    forall n :: n in g ==> n in roots
  }

  lemma FirstDifference(a: seq<string>, b: seq<string>) returns (k: nat)
    requires !(a <= b) && !(b <= a)
    ensures k < |a| && k < |b| && a[..k] == b[..k] && a[k] != b[k]
  {
    k := 0;
    while k < |a| && k < |b| && a[k] == b[k]
      invariant k <= |a| && k <= |b| && a[..k] == b[..k]
    {
      assert a[..k + 1] == a[..k] + [a[k]] && b[..k + 1] == b[..k] + [b[k]];
      k := k + 1;
    }
    assert a == a[..|a|] && b == b[..|b|];
  }

  /** A path to the same service that begins like another is that other. */
  lemma PrefixIsWhole(g: Graph, a: seq<string>, b: seq<string>)
    requires Path(g, a) && Path(g, b) && a <= b && a[|a| - 1] == b[|b| - 1]
    ensures a == b
  {
    assert b[|a| - 1] == a[|a| - 1];
  }

  /** Of two different paths to one service one comes before the other. */
  lemma OneIsBefore(g: Graph, roots: seq<string>, a: seq<string>, b: seq<string>)
    requires AllRoots(g, roots) && Path(g, a) && Path(g, b) && a[|a| - 1] == b[|b| - 1] && a != b
    ensures Before(g, roots, a, b) || Before(g, roots, b, a)
  {
    if a <= b { PrefixIsWhole(g, a, b); }
    if b <= a { PrefixIsWhole(g, b, a); }
    var k := FirstDifference(a, b);
    if k > 0 {
      assert a[k - 1] == a[..k][k - 1] == b[..k][k - 1] == b[k - 1];
      assert DependsOn(g, a[k - 1], a[k - 1 + 1]) && DependsOn(g, b[k - 1], b[k - 1 + 1]);
    }
    assert PartsAt(g, roots, a, b, k) || PartsAt(g, roots, b, a, k);
  }

  /** So there is one first path to a service. */
  lemma OneFirstPath(g: Graph, roots: seq<string>, a: seq<string>, b: seq<string>)
    requires AllRoots(g, roots) && FirstPath(g, roots, a) && FirstPath(g, roots, b) && a[|a| - 1] == b[|b| - 1]
    ensures a == b
  {
    if a != b { OneIsBefore(g, roots, a, b); }
  }

  // ------------------------------------------------------ what a search has covered

  /** Every path before `walk` ends in a known service. */
  ghost predicate CoveredBefore(g: Graph, roots: seq<string>, walk: seq<string>, known: set<string>) {
    forall q {:trigger Path(g, q)} :: Path(g, q) && Before(g, roots, q, walk) ==> q[|q| - 1] in known
  }

  /** Every path that begins like `walk` ends in a known service. */
  ghost predicate CoveredFrom(g: Graph, walk: seq<string>, known: set<string>) {
    forall q {:trigger Path(g, q)} :: Path(g, q) && walk <= q ==> q[|q| - 1] in known
  }

  /** .. for each of the first n dependencies behind `stack`. */
  ghost predicate CoveredDeps(g: Graph, stack: seq<string>, deps: seq<string>, n: nat, known: set<string>)
    requires n <= |deps|
  {
    forall m {:trigger CoveredFrom(g, stack + [deps[m]], known)} :: 0 <= m < n ==> CoveredFrom(g, stack + [deps[m]], known)
  }

  /** Every dependency of a finished service is known. */
  ghost predicate FinishedClosed(g: Graph, finished: seq<string>, known: set<string>) {
    forall u, v {:trigger DependsOn(g, u, v)} :: u in finished && DependsOn(g, u, v) ==> v in known
  }

  /** An unknown service that is reached now is reached along its first path. */
  lemma FreshIsFirst(g: Graph, roots: seq<string>, walk: seq<string>, known: set<string>)
    requires Path(g, walk) && CoveredBefore(g, roots, walk, known) && walk[|walk| - 1] !in known
    ensures FirstPath(g, roots, walk)
  {
  }

  lemma CoveredDepsGrow(g: Graph, stack: seq<string>, deps: seq<string>, n: nat, known: set<string>, more: set<string>)
    requires n < |deps| && known <= more
    requires CoveredDeps(g, stack, deps, n, known) && CoveredFrom(g, stack + [deps[n]], more)
    ensures CoveredDeps(g, stack, deps, n + 1, more)
  {
    forall m | 0 <= m < n + 1 ensures CoveredFrom(g, stack + [deps[m]], more) {
      if m < n { assert CoveredFrom(g, stack + [deps[m]], known); }
    }
  }

  /** What comes before the next dependency comes before the stack, or behind an earlier
      dependency. */
  lemma CoveredBeforeDep(g: Graph, roots: seq<string>, stack: seq<string>, deps: seq<string>, n: nat, known: set<string>)
    requires stack != [] && stack[|stack| - 1] in g && deps == g[stack[|stack| - 1]].dependsOn && n < |deps|
    requires CoveredBefore(g, roots, stack, known) && CoveredDeps(g, stack, deps, n, known)
    ensures CoveredBefore(g, roots, stack + [deps[n]], known)
  {
    var walk := stack + [deps[n]];
    forall q | Path(g, q) && Before(g, roots, q, walk) ensures q[|q| - 1] in known {
      var k: nat :| PartsAt(g, roots, q, walk, k);
      if k < |stack| {
        assert walk[..k] == stack[..k];
        assert PartsAt(g, roots, q, stack, k);
      } else {
        BehindEarlierDep(g, roots, stack, deps, n, known, q, k);
      }
    }
  }

  lemma BehindEarlierDep(g: Graph, roots: seq<string>, stack: seq<string>, deps: seq<string>, n: nat, known: set<string>,
                         q: seq<string>, k: nat)
    requires stack != [] && stack[|stack| - 1] in g && deps == g[stack[|stack| - 1]].dependsOn && n < |deps|
    requires CoveredDeps(g, stack, deps, n, known)
    requires Path(g, q) && |stack| <= k && PartsAt(g, roots, q, stack + [deps[n]], k)
    ensures q[|q| - 1] in known
  {
    var walk := stack + [deps[n]];
    assert k == |stack| && walk[..k] == stack && q[..k] == stack;
    assert q[k - 1] == q[..k][k - 1] == stack[k - 1];
    var m := Pos(deps, q[k]);
    assert Pos(deps, deps[n]) <= n;
    assert q[..k + 1] == q[..k] + [q[k]] == stack + [deps[m]];
    assert CoveredFrom(g, stack + [deps[m]], known);
  }

  /** With its dependencies covered the stack itself is covered. */
  lemma CoveredStack(g: Graph, stack: seq<string>, deps: seq<string>, known: set<string>)
    requires stack != [] && stack[|stack| - 1] in g && deps == g[stack[|stack| - 1]].dependsOn
    requires stack[|stack| - 1] in known && CoveredDeps(g, stack, deps, |deps|, known)
    ensures CoveredFrom(g, stack, known)
  {
    forall q | Path(g, q) && stack <= q ensures q[|q| - 1] in known {
      var k := |stack|;
      if |q| > k {
        assert DependsOn(g, q[k - 1], q[k - 1 + 1]);
        var m :| 0 <= m < |deps| && deps[m] == q[k];
        assert q[..k + 1] == stack + [deps[m]];
        assert CoveredFrom(g, stack + [deps[m]], known);
      }
    }
  }

  /** Behind a finished service everything off the stack is finished. */
  lemma {:induction false} FinishedAlong(g: Graph, stack: seq<string>, finished: seq<string>, known: set<string>,
                                         q: seq<string>, i: nat)
    requires FinishedClosed(g, finished, known) && forall n :: n in known ==> n in stack || n in finished
    requires Path(g, q) && stack <= q && |stack| <= i < |q| && q[|stack|] in finished
    ensures q[i] in finished
    decreases i
  {
    if i > |stack| {
      FinishedAlong(g, stack, finished, known, q, i - 1);
      assert DependsOn(g, q[i - 1], q[i - 1 + 1]);
      assert forall j :: 0 <= j < |stack| ==> q[j] == stack[j];
    }
  }

  lemma FinishedCovers(g: Graph, stack: seq<string>, finished: seq<string>, known: set<string>, node: string)
    requires FinishedClosed(g, finished, known) && (forall n :: n in known ==> n in stack || n in finished)
    requires node in finished && forall n :: n in finished ==> n in known
    ensures CoveredFrom(g, stack + [node], known)
  {
    forall q | Path(g, q) && stack + [node] <= q ensures q[|q| - 1] in known {
      assert q[..|stack|] == stack && q[|stack|] == node;
      FinishedAlong(g, stack, finished, known, q, |q| - 1);
    }
  }

  /** A path goes on off the stack, to a dependency. */
  lemma PathGoesOn(g: Graph, stack: seq<string>, node: string, q: seq<string>)
    requires Path(g, q) && stack + [node] <= q
    ensures node !in stack && node in g && (stack != [] ==> DependsOn(g, stack[|stack| - 1], node))
  {
    var k := |stack|;
    assert q[k] == node && forall j :: 0 <= j < k ==> q[j] == stack[j];
    if k > 0 { assert DependsOn(g, q[k - 1], q[k - 1 + 1]); }
  }

  /** So there is none behind anything else. */
  lemma StackCovers(g: Graph, stack: seq<string>, node: string, known: set<string>)
    requires node in stack || node !in g || (stack != [] && !DependsOn(g, stack[|stack| - 1], node))
    ensures CoveredFrom(g, stack + [node], known)
  {
    forall q | Path(g, q) ensures !(stack + [node] <= q) {
      if stack + [node] <= q { PathGoesOn(g, stack, node, q); }
    }
  }

  // -------------------------------------------------------------- what is reported

  /** `walk` is a first path and a step from its end back onto it; `cycle` is the part of
      it behind the place it comes back to. */
  ghost predicate Comes(g: Graph, roots: seq<string>, walk: seq<string>, cycle: seq<string>) {
    && |walk| >= 2
    && var p, v := walk[..|walk| - 1], walk[|walk| - 1];
    && FirstPath(g, roots, p) && DependsOn(g, p[|p| - 1], v)
    && exists start :: 0 <= start < |p| && p[start] == v && cycle == p[start..] + [v]
  }

  ghost predicate AllCome(g: Graph, roots: seq<string>, walks: seq<seq<string>>, cycles: seq<seq<string>>) {
    && |walks| == |cycles|
    && forall i {:trigger Comes(g, roots, walks[i], cycles[i])} :: 0 <= i < |walks| ==> Comes(g, roots, walks[i], cycles[i])
  }

  /** `walk` steps from the end of a first path back onto it. */
  ghost predicate ComesBack(g: Graph, roots: seq<string>, p: seq<string>, v: string) {
    FirstPath(g, roots, p) && DependsOn(g, p[|p| - 1], v) && v in p
  }

  /** Every such walk from one of these services is there. */
  ghost predicate ReportedFrom(g: Graph, roots: seq<string>, some: seq<string>, walks: seq<seq<string>>) {
    forall p, v {:trigger ComesBack(g, roots, p, v)} ::
      ComesBack(g, roots, p, v) && p[|p| - 1] in some ==> p + [v] in walks
  }

  ghost predicate InOrder(g: Graph, roots: seq<string>, walks: seq<seq<string>>) {
    forall i: nat, j: nat {:trigger Ordered(g, roots, walks, i, j)} :: i < j < |walks| ==> Ordered(g, roots, walks, i, j)
  }

  ghost predicate Ordered(g: Graph, roots: seq<string>, walks: seq<seq<string>>, i: nat, j: nat)
    requires i < |walks| && j < |walks|
  {
    Before(g, roots, walks[i], walks[j])
  }

  ghost predicate AllBefore(g: Graph, roots: seq<string>, walks: seq<seq<string>>, walk: seq<string>) {
    forall w {:trigger Before(g, roots, w, walk)} :: w in walks ==> Before(g, roots, w, walk)
  }

  /** The walks beyond the first n go on from `stack`. */
  ghost predicate NewFrom(walks: seq<seq<string>>, n: nat, stack: seq<string>) {
    forall i {:trigger walks[i]} :: n <= i < |walks| ==> stack <= walks[i]
  }

  /** The walks are before `stack`, or behind one of the first n dependencies. */
  ghost predicate BeforeOrBehind(g: Graph, roots: seq<string>, walks: seq<seq<string>>, stack: seq<string>,
                                 deps: seq<string>, n: nat)
    requires n <= |deps|
  {
    forall w {:trigger w in walks} :: w in walks ==>
      Before(g, roots, w, stack) || exists m :: 0 <= m < n && stack + [deps[m]] <= w
  }

  lemma BeforeLonger(g: Graph, roots: seq<string>, w: seq<string>, walk: seq<string>, v: string)
    requires Before(g, roots, w, walk)
    ensures Before(g, roots, w, walk + [v])
  {
    var k: nat :| PartsAt(g, roots, w, walk, k);
    assert (walk + [v])[..k] == walk[..k];
    assert PartsAt(g, roots, w, walk + [v], k);
  }

  /** All of them are before the next dependency. */
  lemma AllBeforeDep(g: Graph, roots: seq<string>, walks: seq<seq<string>>, stack: seq<string>, deps: seq<string>, n: nat)
    requires stack != [] && stack[|stack| - 1] in g && deps == g[stack[|stack| - 1]].dependsOn
    requires n < |deps| && Distinct(deps) && BeforeOrBehind(g, roots, walks, stack, deps, n)
    ensures AllBefore(g, roots, walks, stack + [deps[n]])
  {
    var walk := stack + [deps[n]];
    forall w | w in walks ensures Before(g, roots, w, walk) {
      if Before(g, roots, w, stack) {
        BeforeLonger(g, roots, w, stack, deps[n]);
      } else {
        var m :| 0 <= m < n && stack + [deps[m]] <= w;
        EarlierDepBefore(g, roots, stack, deps, m, n, w);
      }
    }
  }

  lemma EarlierDepBefore(g: Graph, roots: seq<string>, stack: seq<string>, deps: seq<string>, m: nat, n: nat, w: seq<string>)
    requires stack != [] && stack[|stack| - 1] in g && deps == g[stack[|stack| - 1]].dependsOn
    requires m < n < |deps| && Distinct(deps) && stack + [deps[m]] <= w
    ensures Before(g, roots, w, stack + [deps[n]])
  {
    var k, walk := |stack|, stack + [deps[n]];
    assert w[k] == deps[m] && w[..k] == stack && walk[..k] == stack && w[k - 1] == stack[k - 1];
    assert Pos(deps, deps[m]) == m && Pos(deps, deps[n]) == n;
    assert PartsAt(g, roots, w, walk, k);
  }

  /** New walks go on behind the dependency that was visited. */
  lemma BehindOneMore(g: Graph, roots: seq<string>, before: seq<seq<string>>, after: seq<seq<string>>, stack: seq<string>,
                      deps: seq<string>, n: nat)
    requires n < |deps| && BeforeOrBehind(g, roots, before, stack, deps, n)
    requires before <= after && NewFrom(after, |before|, stack + [deps[n]])
    ensures BeforeOrBehind(g, roots, after, stack, deps, n + 1)
  {
    forall w | w in after
      ensures Before(g, roots, w, stack) || exists m :: 0 <= m < n + 1 && stack + [deps[m]] <= w
    {
      var i :| 0 <= i < |after| && after[i] == w;
      if i < |before| {
        assert before[i] in before;
      } else {
        assert stack + [deps[n]] <= after[i];
      }
    }
  }

  lemma NewFromShorter(before: seq<seq<string>>, after: seq<seq<string>>, n: nat, stack: seq<string>, v: string)
    requires before <= after && n <= |before| && NewFrom(before, n, stack) && NewFrom(after, |before|, stack + [v])
    ensures NewFrom(after, n, stack)
  {
    forall i | n <= i < |after| ensures stack <= after[i] {
      if i < |before| { assert after[i] == before[i]; } else { assert stack + [v] <= after[i]; }
    }
  }

  /** One more walk, behind all the others. */
  lemma OneMoreInOrder(g: Graph, roots: seq<string>, walks: seq<seq<string>>, walk: seq<string>)
    requires InOrder(g, roots, walks) && AllBefore(g, roots, walks, walk)
    ensures InOrder(g, roots, walks + [walk])
  {
    var more := walks + [walk];
    forall i: nat, j: nat | i < j < |more| ensures Ordered(g, roots, more, i, j) {
      if j < |walks| { assert Ordered(g, roots, walks, i, j); } else { assert walks[i] in walks; }
    }
  }

  lemma OneMoreComes(g: Graph, roots: seq<string>, walks: seq<seq<string>>, cycles: seq<seq<string>>,
                     p: seq<string>, v: string, start: nat)
    requires AllCome(g, roots, walks, cycles) && FirstPath(g, roots, p) && DependsOn(g, p[|p| - 1], v)
    requires start < |p| && p[start] == v
    ensures AllCome(g, roots, walks + [p + [v]], cycles + [p[start..] + [v]])
  {
    var w, c := p + [v], p[start..] + [v];
    assert w[..|w| - 1] == p;
    assert Comes(g, roots, w, c);
    forall i | 0 <= i < |walks| + 1 ensures Comes(g, roots, (walks + [w])[i], (cycles + [c])[i]) {
      if i < |walks| { assert Comes(g, roots, walks[i], cycles[i]); }
    }
  }

  lemma EnclosedIsCycle(g: Graph, p: seq<string>, v: string, start: nat)
    requires Path(g, p) && DependsOn(g, p[|p| - 1], v) && start < |p| && p[start] == v
    ensures Cycle(g, p[start..] + [v]) && Closes(p[start..] + [v], p[|p| - 1], v)
  {
    var cycle := p[start..] + [v];
    forall i | 0 <= i < |cycle| - 1 ensures DependsOn(g, cycle[i], cycle[i + 1]) {
      if i + 1 < |cycle| - 1 { assert DependsOn(g, p[start + i], p[start + i + 1]); }
    }
    assert cycle[..|cycle| - 1] == p[start..];
  }

  /** What comes is a cycle that closes with the last step of the walk. */
  lemma ComesCycle(g: Graph, roots: seq<string>, walk: seq<string>, cycle: seq<string>)
    requires Comes(g, roots, walk, cycle)
    ensures Cycle(g, cycle) && Closes(cycle, walk[|walk| - 2], walk[|walk| - 1])
  {
    var p, v := walk[..|walk| - 1], walk[|walk| - 1];
    var start :| 0 <= start < |p| && p[start] == v && cycle == p[start..] + [v];
    EnclosedIsCycle(g, p, v, start);
  }

  predicate Closes(c: seq<string>, u: string, v: string) {
    |c| >= 2 && c[|c| - 2] == u && c[|c| - 1] == v
  }

  /** Some reported cycle closes with the edge from `u` to `v`. */
  ghost predicate ClosedBy(cycles: seq<seq<string>>, u: string, v: string) {
    exists i :: 0 <= i < |cycles| && Closes(cycles[i], u, v)
  }

  lemma StillClosedBy(before: seq<seq<string>>, after: seq<seq<string>>, u: string, v: string)
    requires ClosedBy(before, u, v) && before <= after
    ensures ClosedBy(after, u, v)
  {
    var i :| 0 <= i < |before| && Closes(before[i], u, v);
    assert after[i] == before[i];
  }
}
