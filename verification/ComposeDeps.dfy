/**
 `findCycles` and `findSelfLoops` (scripts/check-compose-deps.ts): the
 white/grey/black depth-first search over the compose file's `depends_on` graph.
 */
module ComposeDeps {
  import opened ComposeGraph
  import opened JsStrings

  /** `new Map(services.map(s => [s.name, s]))`: the last definition of a name wins. */
  function ByName(services: seq<Service>): map<string, Service> {
    if services == [] then map[]
    else
      var last := services[|services| - 1];
      ByName(services[..|services| - 1])[last.name := last]
  }

  lemma {:induction false} ByNameKeys(services: seq<Service>, n: string)
    ensures n in ByName(services) <==> exists i :: 0 <= i < |services| && services[i].name == n
  {
    if services != [] {
      var init := services[..|services| - 1];
      ByNameKeys(init, n);
      if i :| 0 <= i < |services| && services[i].name == n && i < |init| {
        assert init[i].name == n;
      }
    }
  }

  // ------------------------------------------------------------- the search

  datatype Colour = White | Grey | Black

  /** Every dependency of a finished service finished before it, or closes a reported cycle. */
  ghost predicate Topological(g: Graph, finished: seq<string>, cycles: seq<seq<string>>) {
    forall i, v {:trigger DependsOn(g, finished[i], v)} ::
      0 <= i < |finished| && DependsOn(g, finished[i], v) ==> v in finished[..i] || ClosedBy(cycles, finished[i], v)
  }

  lemma StillTopological(g: Graph, finished: seq<string>, before: seq<seq<string>>, after: seq<seq<string>>)
    requires Topological(g, finished, before) && before <= after
    ensures Topological(g, finished, after)
  {
    forall i, v | 0 <= i < |finished| && DependsOn(g, finished[i], v)
      ensures v in finished[..i] || ClosedBy(after, finished[i], v)
    {
      if ClosedBy(before, finished[i], v) { StillClosedBy(before, after, finished[i], v); }
    }
  }

  ghost predicate FirstPaths(g: Graph, roots: seq<string>, stack: seq<string>) {
    forall n {:trigger FirstPath(g, roots, stack[..n])} :: 0 < n <= |stack| ==> FirstPath(g, roots, stack[..n])
  }

  /** The first n dependencies of `node`, which is on top of the stack, have been visited:
      they have finished, or close a reported cycle. */
  ghost predicate DepsVisited(g: Graph, stack: seq<string>, finished: seq<string>, known: set<string>,
                              cycles: seq<seq<string>>, walks: seq<seq<string>>, deps: seq<string>, n: nat)
    requires n <= |deps|
  {
    forall k {:trigger DepVisited(g, stack, finished, known, cycles, walks, deps[k])} ::
      0 <= k < n ==> DepVisited(g, stack, finished, known, cycles, walks, deps[k])
  }

  ghost predicate DepVisited(g: Graph, stack: seq<string>, finished: seq<string>, known: set<string>,
                             cycles: seq<seq<string>>, walks: seq<seq<string>>, dep: string)
  {
    stack != [] && DependsOn(g, stack[|stack| - 1], dep) ==>
      && dep in known
      && (dep in finished || ClosedBy(cycles, stack[|stack| - 1], dep))
      && (dep in stack ==> stack + [dep] in walks)
  }

  lemma VisitedOneMore(g: Graph, stack: seq<string>, finished: seq<string>, known: set<string>, cycles: seq<seq<string>>,
                       walks: seq<seq<string>>, moreFinished: seq<string>, moreKnown: set<string>,
                       moreCycles: seq<seq<string>>, moreWalks: seq<seq<string>>, deps: seq<string>, n: nat)
    requires n < |deps| && DepsVisited(g, stack, finished, known, cycles, walks, deps, n)
    requires finished <= moreFinished && known <= moreKnown && cycles <= moreCycles && walks <= moreWalks
    requires DepVisited(g, stack, moreFinished, moreKnown, moreCycles, moreWalks, deps[n])
    ensures DepsVisited(g, stack, moreFinished, moreKnown, moreCycles, moreWalks, deps, n + 1)
  {
    forall k | 0 <= k < n + 1 ensures DepVisited(g, stack, moreFinished, moreKnown, moreCycles, moreWalks, deps[k]) {
      if k < n {
        assert DepVisited(g, stack, finished, known, cycles, walks, deps[k]);
        if stack != [] && ClosedBy(cycles, stack[|stack| - 1], deps[k]) {
          StillClosedBy(cycles, moreCycles, stack[|stack| - 1], deps[k]);
        }
      }
    }
  }

  /** The top of the stack has visited everything: it may finish. */
  lemma TopFinishes(g: Graph, roots: seq<string>, stack: seq<string>, finished: seq<string>, known: set<string>,
                    cycles: seq<seq<string>>, walks: seq<seq<string>>)
    requires stack != [] && stack[|stack| - 1] in g && AllRoots(g, roots) && FirstPath(g, roots, stack)
    requires var deps := g[stack[|stack| - 1]].dependsOn;
      DepsVisited(g, stack, finished, known, cycles, walks, deps, |deps|)
    requires Topological(g, finished, cycles) && FinishedClosed(g, finished, known)
    requires ReportedFrom(g, roots, finished, walks)
    ensures var more := finished + [stack[|stack| - 1]];
      Topological(g, more, cycles) && FinishedClosed(g, more, known) && ReportedFrom(g, roots, more, walks)
  {
    var top := stack[|stack| - 1];
    forall v | DependsOn(g, top, v) ensures DepVisited(g, stack, finished, known, cycles, walks, v) {
      var k :| 0 <= k < |g[top].dependsOn| && g[top].dependsOn[k] == v;
      assert DepVisited(g, stack, finished, known, cycles, walks, g[top].dependsOn[k]);
    }
    TopologicalStep(g, finished, cycles, top);
    forall p, v | ComesBack(g, roots, p, v) && p[|p| - 1] in finished + [top] ensures p + [v] in walks {
      if p[|p| - 1] !in finished { OneFirstPath(g, roots, p, stack); }
    }
  }

  lemma TopologicalStep(g: Graph, finished: seq<string>, cycles: seq<seq<string>>, node: string)
    requires Topological(g, finished, cycles)
    requires forall v :: DependsOn(g, node, v) ==> v in finished || ClosedBy(cycles, node, v)
    ensures Topological(g, finished + [node], cycles)
  {
    var order := finished + [node];
    forall i, v | 0 <= i < |order| && DependsOn(g, order[i], v)
      ensures v in order[..i] || ClosedBy(cycles, order[i], v)
    {
      assert order[..i] == finished[..i];
      if i < |finished| { assert DependsOn(g, finished[i], v); }
    }
  }

  lemma PushFirstPath(g: Graph, roots: seq<string>, stack: seq<string>, node: string, known: set<string>)
    requires FirstPaths(g, roots, stack) && node in g && node !in stack && node !in known
    requires stack != [] ==> DependsOn(g, stack[|stack| - 1], node)
    requires CoveredBefore(g, roots, stack + [node], known)
    ensures FirstPaths(g, roots, stack + [node])
  {
    var more := stack + [node];
    assert stack[..|stack|] == stack;
    if stack != [] { assert FirstPath(g, roots, stack[..|stack|]); }
    assert Path(g, more);
    FreshIsFirst(g, roots, more, known);
    forall n | 0 < n <= |more| ensures FirstPath(g, roots, more[..n]) {
      if n <= |stack| { assert more[..n] == stack[..n]; } else { assert more[..n] == more; }
    }
  }

  function ColourIn(colour: map<string, Colour>, n: string): Colour {
    if n in colour then colour[n] else White
  }

  /** The grey services are exactly those on the stack, the black ones those that finished;
      each service is expanded once. */
  ghost predicate ColoursMatch(colour: map<string, Colour>, stack: seq<string>, expanded: seq<string>,
                               finished: seq<string>)
  {
    && Distinct(stack) && (forall n {:trigger n in stack} :: n in stack <==> ColourIn(colour, n) == Grey)
    && Distinct(expanded) && (forall n {:trigger n in expanded} :: n in expanded <==> n in colour)
    && Distinct(finished) && (forall n {:trigger n in finished} :: n in finished <==> ColourIn(colour, n) == Black)
    && (forall n {:trigger n in colour} :: n in colour ==> colour[n] != White)
  }

  lemma Blackens(colour: map<string, Colour>, below: seq<string>, node: string, expanded: seq<string>,
                 finished: seq<string>)
    requires ColoursMatch(colour, below + [node], expanded, finished)
    ensures node in colour && ColoursMatch(colour[node := Black], below, expanded, finished + [node])
  {
    var stack := below + [node];
    assert stack[|below|] == node && node in stack && node !in finished;
    assert forall i :: 0 <= i < |below| ==> stack[i] == below[i];
    assert node !in below;
    forall n ensures n in below <==> ColourIn(colour[node := Black], n) == Grey {
      assert n in below + [node] <==> n in below || n == node;
    }
    forall n ensures n in finished + [node] <==> ColourIn(colour[node := Black], n) == Black {
      assert n in finished + [node] <==> n in finished || n == node;
    }
  }

  lemma Greys(colour: map<string, Colour>, stack: seq<string>, node: string, expanded: seq<string>,
              finished: seq<string>)
    requires ColoursMatch(colour, stack, expanded, finished) && node !in colour
    ensures ColoursMatch(colour[node := Grey], stack + [node], expanded + [node], finished)
  {
    assert node !in stack && node !in expanded;
    forall n ensures n in stack + [node] <==> ColourIn(colour[node := Grey], n) == Grey {
      assert n in stack + [node] <==> n in stack || n == node;
    }
    forall n ensures n in expanded + [node] <==> n in colour[node := Grey] {
      assert n in expanded + [node] <==> n in expanded || n == node;
    }
  }

  lemma PopFirstPaths(g: Graph, roots: seq<string>, below: seq<string>, node: string)
    requires FirstPaths(g, roots, below + [node])
    ensures FirstPath(g, roots, below + [node]) && FirstPaths(g, roots, below)
  {
    var stack := below + [node];
    assert stack[..|stack|] == stack && FirstPath(g, roots, stack[..|stack|]);
    assert forall n :: 0 < n <= |below| ==> below[..n] == stack[..n];
  }

  class CycleScan {
    const g: Graph
    ghost const roots: seq<string>   // the services in the order of the file
    var colour: map<string, Colour>
    var stack: seq<string>
    var cycles: seq<seq<string>>
    ghost var expanded: seq<string>  // in the order they turned grey
    ghost var finished: seq<string>  // in the order they turned black
    ghost var walks: seq<seq<string>>  // for every cycle, the stack and the step back onto it

    constructor (g: Graph, ghost roots: seq<string>)
      requires AllRoots(g, roots)
      ensures this.g == g && this.roots == roots && Valid()
      ensures colour == map[] && stack == [] && cycles == [] && expanded == [] && finished == [] && walks == []
    {
      this.g, this.roots := g, roots;
      colour, stack, cycles, expanded, finished, walks := map[], [], [], [], [], [];
    }

    function ColourOf(n: string): Colour reads this {
      ColourIn(colour, n)
    }

    ghost predicate Valid() reads this {
      ColoursRight() && ReportsRight()
    }

    ghost predicate ColoursRight() reads this {
      colour.Keys <= g.Keys && ColoursMatch(colour, stack, expanded, finished)
    }

    /** The stack is the first path to each of its services, and every walk that comes back
        onto such a path has been reported, in order, once its service has finished. */
    ghost predicate ReportsRight() reads this {
      && AllRoots(g, roots) && FirstPaths(g, roots, stack)
      && AllCome(g, roots, walks, cycles)
      && (NoRepeats(g) ==> InOrder(g, roots, walks))
      && Topological(g, finished, cycles)
      && FinishedClosed(g, finished, colour.Keys)
      && ReportedFrom(g, roots, finished, walks)
    }

    twostate predicate Progress() reads this {
      && old(cycles) <= cycles && old(walks) <= walks
      && old(finished) <= finished && old(colour.Keys) <= colour.Keys
    }

    /** The search is about to go on to `node`, and has been everywhere before. */
    ghost predicate Reaches(node: string) reads this {
      && node in g && (stack != [] ==> DependsOn(g, stack[|stack| - 1], node))
      && CoveredBefore(g, roots, stack + [node], colour.Keys)
      && (NoRepeats(g) ==> AllBefore(g, roots, walks, stack + [node]))
    }

    method Dfs(node: string)
      requires Valid() && Reaches(node)
      modifies this
      decreases g.Keys - colour.Keys, 1
      ensures Valid() && Progress() && stack == old(stack)
      ensures CoveredFrom(g, stack + [node], colour.Keys) && NewFrom(walks, |old(walks)|, stack + [node])
      ensures node in colour && DepVisited(g, stack, finished, colour.Keys, cycles, walks, node)
      ensures stack == [] ==> node in finished
    {
      var c := ColourOf(node);
      if c == Black {
        FinishedCovers(g, stack, finished, colour.Keys, node);
        return;
      }
      if c == Grey {
        var start := IndexOf(stack, node);
        assert start >= 0;
        StackCovers(g, stack, node, colour.Keys);
        if start >= 0 { CloseCycle(node, start); }
        return;
      }
      assert node !in stack;
      Expand(node);
    }

    /** The grey case: the stack above the service, and the service again. */
    method CloseCycle(node: string, start: nat)
      requires Valid() && start < |stack| && stack[start] == node && Reaches(node)
      modifies this`cycles, this`walks
      ensures Valid() && Progress()
      ensures cycles == old(cycles) + [stack[start..] + [node]] && walks == old(walks) + [stack + [node]]
      ensures ClosedBy(cycles, stack[|stack| - 1], node)
    {
      var c := stack[start..] + [node];
      ghost var w := stack + [node];
      assert stack[..|stack|] == stack && FirstPath(g, roots, stack[..|stack|]);
      OneMoreComes(g, roots, walks, cycles, stack, node, start);
      if NoRepeats(g) { OneMoreInOrder(g, roots, walks, w); }
      StillTopological(g, finished, cycles, cycles + [c]);
      assert Closes((cycles + [c])[|cycles|], stack[|stack| - 1], node);
      cycles, walks := cycles + [c], walks + [w];
    }

    /** The white case: grey the service, visit its dependencies, blacken it. */
    method Expand(node: string)
      requires Valid() && node !in colour && node !in stack && Reaches(node)
      modifies this
      decreases g.Keys - colour.Keys, 0
      ensures Valid() && Progress() && stack == old(stack)
      ensures CoveredFrom(g, stack + [node], colour.Keys) && NewFrom(walks, |old(walks)|, stack + [node])
      ensures node in finished && node in colour
    {
      Push(node);
      VisitDeps(node);
      Pop(node, old(stack));
    }

    method VisitDeps(node: string)
      requires Valid() && stack != [] && stack[|stack| - 1] == node && node in g && node in colour
      requires CoveredBefore(g, roots, stack, colour.Keys)
      requires NoRepeats(g) ==> AllBefore(g, roots, walks, stack)
      modifies this
      decreases g.Keys - colour.Keys, 3
      ensures Valid() && Progress() && stack == old(stack)
      ensures CoveredFrom(g, stack, colour.Keys) && NewFrom(walks, |old(walks)|, stack)
      ensures var deps := g[node].dependsOn;
        DepsVisited(g, stack, finished, colour.Keys, cycles, walks, deps, |deps|)
    {
      var deps := g[node].dependsOn;
      for n := 0 to |deps|
        invariant Valid() && Progress() && stack == old(stack)
        invariant CoveredBefore(g, roots, stack, colour.Keys) && CoveredDeps(g, stack, deps, n, colour.Keys)
        invariant DepsVisited(g, stack, finished, colour.Keys, cycles, walks, deps, n)
        invariant NoRepeats(g) ==> BeforeOrBehind(g, roots, walks, stack, deps, n)
        invariant NewFrom(walks, |old(walks)|, stack)
      {
        CoveredBeforeDep(g, roots, stack, deps, n, colour.Keys);
        if NoRepeats(g) { AllBeforeDep(g, roots, walks, stack, deps, n); }
        ghost var f, k, c, w := finished, colour.Keys, cycles, walks;
        VisitDep(node, deps[n]);
        CoveredDepsGrow(g, stack, deps, n, k, colour.Keys);
        VisitedOneMore(g, stack, f, k, c, w, finished, colour.Keys, cycles, walks, deps, n);
        if NoRepeats(g) { BehindOneMore(g, roots, w, walks, stack, deps, n); }
        NewFromShorter(w, walks, |old(walks)|, stack, deps[n]);
      }
      CoveredStack(g, stack, deps, colour.Keys);
    }

    method VisitDep(node: string, dep: string)
      requires Valid() && stack != [] && stack[|stack| - 1] == node && node in g && dep in g[node].dependsOn
      requires CoveredBefore(g, roots, stack + [dep], colour.Keys)
      requires NoRepeats(g) ==> AllBefore(g, roots, walks, stack + [dep])
      modifies this
      decreases g.Keys - colour.Keys, 2
      ensures Valid() && Progress() && stack == old(stack)
      ensures CoveredFrom(g, stack + [dep], colour.Keys) && NewFrom(walks, |old(walks)|, stack + [dep])
      ensures DepVisited(g, stack, finished, colour.Keys, cycles, walks, dep)
    {
      if !DependsOn(g, node, dep) { StackCovers(g, stack, dep, colour.Keys); }
      if dep == node { return; }  // a self-loop is reported separately
      if dep in g {
        Dfs(dep);
      }
    }

    method Push(node: string)
      requires Valid() && node !in colour && node !in stack && Reaches(node)
      modifies this`stack, this`colour, this`expanded
      ensures Valid() && Progress() && stack == old(stack) + [node] && colour.Keys == old(colour.Keys) + {node}
      ensures CoveredBefore(g, roots, stack, colour.Keys)
    {
      PushFirstPath(g, roots, stack, node, colour.Keys);
      Greys(colour, stack, node, expanded, finished);
      colour := colour[node := Grey];
      stack, expanded := stack + [node], expanded + [node];
    }

    /** Pop the stack and blacken the service on top of it. */
    method Pop(node: string, ghost below: seq<string>)
      requires Valid() && stack == below + [node] && node in g
      requires var deps := g[node].dependsOn;
        DepsVisited(g, stack, finished, colour.Keys, cycles, walks, deps, |deps|)
      modifies this`stack, this`colour, this`finished
      ensures Valid() && Progress() && stack == below && colour.Keys == old(colour.Keys)
      ensures finished == old(finished) + [node]
    {
      PopFirstPaths(g, roots, below, node);
      TopFinishes(g, roots, stack, finished, colour.Keys, cycles, walks);
      Blackens(colour, below, node, expanded, finished);
      stack := stack[..|stack| - 1];
      assert stack == below;
      colour := colour[node := Black];
      finished := finished + [node];
    }
  }

  method IndexOf(s: seq<string>, x: string) returns (r: int)
    ensures r == -1 ==> x !in s
    ensures r != -1 ==> 0 <= r < |s| && s[r] == x && x !in s[..r]
  {
    for i := 0 to |s|
      invariant x !in s[..i]
    {
      if s[i] == x { return i; }
    }
    return -1;
  }

  // ------------------------------------------------------------ exactness

  /** The closed walk uses the edge that closes one of the cycles. */
  ghost predicate UsesClosing(cycles: seq<seq<string>>, p: seq<string>) {
    exists i {:trigger p[i]} :: 0 <= i < |p| - 1 && ClosedBy(cycles, p[i], p[i + 1])
  }

  /** A finishing order that respects every other edge leaves no closed walk without one of
      the closing edges. */
  lemma TopologicalOrderIsAcyclic(g: Graph, finished: seq<string>, cycles: seq<seq<string>>, p: seq<string>)
    requires Distinct(finished) && Topological(g, finished, cycles) && (forall n :: n in g ==> n in finished)
    requires ClosedWalk(g, p)
    ensures UsesClosing(cycles, p)
  {
    if forall i {:trigger p[i]} :: 0 <= i < |p| - 1 ==> !ClosedBy(cycles, p[i], p[i + 1]) {
      assert DependsOn(g, p[0], p[1]);
      var top :| 0 <= top < |finished| && finished[top] == p[0];
      var at := Descend(g, finished, cycles, p, |p| - 1, top);
    }
  }

  /** Every other step of a walk moves to a service that finished earlier. */
  lemma {:induction false} Descend(g: Graph, finished: seq<string>, cycles: seq<seq<string>>, p: seq<string>, n: nat,
                                   top: nat) returns (at: nat)
    requires ClosedWalk(g, p) && n < |p| && Topological(g, finished, cycles)
    requires forall i {:trigger p[i]} :: 0 <= i < |p| - 1 ==> !ClosedBy(cycles, p[i], p[i + 1])
    requires top < |finished| && finished[top] == p[0]
    ensures at + n <= top && finished[at] == p[n]
  {
    if n == 0 {
      at := top;
    } else {
      var before := Descend(g, finished, cycles, p, n - 1, top);
      assert DependsOn(g, p[n - 1], p[n - 1 + 1]) && !ClosedBy(cycles, p[n - 1], p[n - 1 + 1]);
      assert DependsOn(g, finished[before], p[n]);
      assert p[n] in finished[..before];
      at :| 0 <= at < before && finished[..before][at] == p[n];
    }
  }

  function NamesOf(services: seq<Service>): (r: seq<string>)
    ensures |r| == |services|
  {
    seq(|services|, i requires 0 <= i < |services| => services[i].name)
  }

  /** `walks` gives, for every cycle, the way the search came to it. */
  method FindCycles(services: seq<Service>)
    returns (cycles: seq<seq<string>>, ghost expanded: seq<string>, ghost walks: seq<seq<string>>)
    ensures cycles == [] <==> !Cyclic(ByName(services))
    ensures forall i :: 0 <= i < |cycles| ==> Cycle(ByName(services), cycles[i])
    // no closed walk escapes: it uses the closing edge of a reported cycle
    ensures forall p :: ClosedWalk(ByName(services), p) ==> UsesClosing(cycles, p)
    // each cycle is what a first path and a step back onto it enclose, every such walk
    // gives one, and they come in the order of the file, none twice
    ensures AllCome(ByName(services), NamesOf(services), walks, cycles)
    ensures forall p, v :: ComesBack(ByName(services), NamesOf(services), p, v) ==> p + [v] in walks
    ensures NoRepeats(ByName(services)) ==> InOrder(ByName(services), NamesOf(services), walks)
    // every service is expanded, once
    ensures Distinct(expanded) && forall n :: n in expanded <==> n in ByName(services)
  {
    ghost var g, roots := ByName(services), NamesOf(services);
    NamesAreRoots(services);
    var scan := new CycleScan(ByName(services), NamesOf(services));
    for n := 0 to |services|
      invariant scan.Valid() && scan.g == g && scan.roots == roots && scan.stack == [] && fresh(scan)
      invariant RootsCovered(g, roots, n, scan.colour.Keys)
      invariant NoRepeats(g) ==> BehindRoots(roots, n, scan.walks)
    {
      var name := services[n].name;
      ByNameKeys(services, name);
      ghost var known, walksBefore := scan.colour.Keys, scan.walks;
      if name !in scan.colour {
        CoveredBeforeRoot(g, roots, n, scan.colour.Keys);
        NewRoot(g, roots, n, scan.colour.Keys);
        if NoRepeats(g) { AllBeforeRoot(g, roots, n, scan.walks); }
        assert scan.stack + [name] == [roots[n]];
        scan.Dfs(name);
        if NoRepeats(g) { BehindOneMoreRoot(roots, n, walksBefore, scan.walks); }
      } else {
        FinishedCovers(g, scan.stack, scan.finished, scan.colour.Keys, name);
        assert scan.stack + [name] == [roots[n]];
      }
      RootsCoveredGrow(g, roots, n, known, scan.colour.Keys);
    }
    cycles, expanded, walks := scan.cycles, scan.expanded, scan.walks;
    AllFinished(services, scan);
    forall i | 0 <= i < |cycles| ensures Cycle(g, cycles[i]) {
      assert Comes(g, roots, walks[i], cycles[i]);
      ComesCycle(g, roots, walks[i], cycles[i]);
    }
    forall p | ClosedWalk(ByName(services), p) ensures UsesClosing(cycles, p) {
      TopologicalOrderIsAcyclic(scan.g, scan.finished, cycles, p);
    }
    ClosingIffCyclic(ByName(services), cycles);
  }

  lemma NamesAreRoots(services: seq<Service>)
    ensures AllRoots(ByName(services), NamesOf(services))
  {
    forall n | n in ByName(services) ensures n in NamesOf(services) {
      ByNameKeys(services, n);
      var i :| 0 <= i < |services| && services[i].name == n;
      assert NamesOf(services)[i] == n;
    }
  }

  /** The first n roots have been covered. */
  ghost predicate RootsCovered(g: Graph, roots: seq<string>, n: nat, known: set<string>)
    requires n <= |roots|
  {
    forall m {:trigger CoveredFrom(g, [roots[m]], known)} :: 0 <= m < n ==>
      CoveredFrom(g, [roots[m]], known) && roots[m] in known
  }

  lemma NewRoot(g: Graph, roots: seq<string>, n: nat, known: set<string>)
    requires n < |roots| && RootsCovered(g, roots, n, known) && roots[n] !in known
    ensures roots[n] !in roots[..n]
  {
    forall m | 0 <= m < n ensures roots[m] != roots[n] { assert CoveredFrom(g, [roots[m]], known); }
  }

  lemma RootsCoveredGrow(g: Graph, roots: seq<string>, n: nat, known: set<string>, more: set<string>)
    requires n < |roots| && RootsCovered(g, roots, n, known) && known <= more
    requires CoveredFrom(g, [roots[n]], more) && roots[n] in more
    ensures RootsCovered(g, roots, n + 1, more)
  {
    forall m | 0 <= m < n + 1 ensures CoveredFrom(g, [roots[m]], more) && roots[m] in more {
      if m < n { assert CoveredFrom(g, [roots[m]], known); }
    }
  }

  lemma CoveredBeforeRoot(g: Graph, roots: seq<string>, n: nat, known: set<string>)
    requires n < |roots| && RootsCovered(g, roots, n, known) && AllRoots(g, roots)
    ensures CoveredBefore(g, roots, [roots[n]], known)
  {
    forall q | Path(g, q) && Before(g, roots, q, [roots[n]]) ensures q[|q| - 1] in known {
      var k: nat :| PartsAt(g, roots, q, [roots[n]], k);
      var m := Pos(roots, q[0]);
      assert Pos(roots, roots[n]) <= n;
      assert CoveredFrom(g, [roots[m]], known) && [roots[m]] <= q;
    }
  }

  /** The walks begin at one of the first n roots. */
  ghost predicate BehindRoots(roots: seq<string>, n: nat, walks: seq<seq<string>>)
    requires n <= |roots|
  {
    forall w {:trigger w in walks} :: w in walks ==> exists m :: 0 <= m < n && [roots[m]] <= w
  }

  lemma BehindOneMoreRoot(roots: seq<string>, n: nat, before: seq<seq<string>>, after: seq<seq<string>>)
    requires n < |roots| && BehindRoots(roots, n, before) && before <= after
    requires NewFrom(after, |before|, [roots[n]])
    ensures BehindRoots(roots, n + 1, after)
  {
    forall w | w in after ensures exists m :: 0 <= m < n + 1 && [roots[m]] <= w {
      var i :| 0 <= i < |after| && after[i] == w;
      if i < |before| { assert before[i] in before; } else { assert [roots[n]] <= after[i]; }
    }
  }

  lemma AllBeforeRoot(g: Graph, roots: seq<string>, n: nat, walks: seq<seq<string>>)
    requires n < |roots| && BehindRoots(roots, n, walks) && roots[n] !in roots[..n]
    ensures AllBefore(g, roots, walks, [roots[n]])
  {
    forall w | w in walks ensures Before(g, roots, w, [roots[n]]) {
      var m :| 0 <= m < n && [roots[m]] <= w;
      assert w[0] == roots[m] && Pos(roots, roots[m]) <= m;
      assert forall i :: 0 <= i < n ==> roots[..n][i] == roots[i];
      assert PartsAt(g, roots, w, [roots[n]], 0);
    }
  }

  lemma AllFinished(services: seq<Service>, scan: CycleScan)
    requires scan.Valid() && scan.g == ByName(services) && scan.stack == []
    requires RootsCovered(scan.g, NamesOf(services), |services|, scan.colour.Keys)
    ensures forall n :: n in scan.g ==> n in scan.finished && n in scan.colour
  {
    forall n | n in scan.g ensures n in scan.finished && n in scan.colour {
      ByNameKeys(services, n);
      var i :| 0 <= i < |services| && services[i].name == n;
      assert CoveredFrom(scan.g, [NamesOf(services)[i]], scan.colour.Keys);
      assert n in scan.colour && n !in scan.stack;
    }
  }

  lemma ClosingIffCyclic(g: Graph, cycles: seq<seq<string>>)
    requires forall i :: 0 <= i < |cycles| ==> Cycle(g, cycles[i])
    requires forall p :: ClosedWalk(g, p) ==> UsesClosing(cycles, p)
    ensures cycles == [] <==> !Cyclic(g)
  {
    if cycles != [] { assert ClosedWalk(g, cycles[0]); }
    if p :| ClosedWalk(g, p) { assert UsesClosing(cycles, p); }
  }

  // ----------------------------------------------------------- the whole gate

  datatype SelfLoop = SelfLoop(name: string, line: nat)

  predicate ListsItself(s: Service) { s.name in s.dependsOn }

  /** `at` gives the places of the reported services in the file: in order, each once, and
      all of those among the first n that list themselves. */
  ghost predicate Reports(services: seq<Service>, n: nat, out: seq<SelfLoop>, at: seq<nat>) {
    && |at| == |out| && n <= |services|
    && (forall k :: 0 <= k < |at| ==> at[k] < n && ListsItself(services[at[k]])
                                      && out[k] == SelfLoop(services[at[k]].name, services[at[k]].startLine))
    && (forall j, k :: 0 <= j < k < |at| ==> at[j] < at[k])
    && (forall i: nat :: i < n && ListsItself(services[i]) ==> i in at)
  }

  method FindSelfLoops(services: seq<Service>) returns (out: seq<SelfLoop>, ghost at: seq<nat>)
    ensures Reports(services, |services|, out, at)
  {
    out, at := [], [];
    for n := 0 to |services|
      invariant Reports(services, n, out, at)
    {
      if ListsItself(services[n]) {
        out, at := out + [SelfLoop(services[n].name, services[n].startLine)], at + [n];
        assert at[|at| - 1] == n;
      }
    }
  }

  /** The declared dependency relation, self-loops included. */
  ghost predicate Declares(services: seq<Service>, u: string, v: string) {
    || DependsOn(ByName(services), u, v)
    || (u == v && exists i :: 0 <= i < |services| && services[i].name == u && ListsItself(services[i]))
  }

  ghost predicate DeclaredClosedWalk(services: seq<Service>, p: seq<string>) {
    |p| >= 2 && p[0] == p[|p| - 1] && forall i :: 0 <= i < |p| - 1 ==> Declares(services, p[i], p[i + 1])
  }

  /** The exit code of the gate: 2 without services, 1 on a finding, 0 otherwise. */
  method Gate(services: seq<Service>) returns (code: int)
    ensures code == 2 <==> services == []
    ensures code == 0 <==> services != [] && !exists p :: DeclaredClosedWalk(services, p)
    ensures code in {0, 1, 2}
  {
    if |services| == 0 {
      return 2;
    }
    var selfLoops, at := FindSelfLoops(services);
    var cycles, _, _ := FindCycles(services);
    code := if |selfLoops| > 0 || |cycles| > 0 then 1 else 0;
    assert |at| > 0 ==> ListsItself(services[at[0]]);
    DeclaredWalks(services);
  }

  lemma DeclaredWalks(services: seq<Service>)
    ensures (exists p :: DeclaredClosedWalk(services, p)) <==>
            Cyclic(ByName(services)) || exists i :: 0 <= i < |services| && ListsItself(services[i])
  {
    if p :| DeclaredClosedWalk(services, p) {
      if forall i :: 0 <= i < |services| ==> !ListsItself(services[i]) {
        forall i | 0 <= i < |p| - 1 ensures DependsOn(ByName(services), p[i], p[i + 1]) {
          assert Declares(services, p[i], p[i + 1]);
        }
        assert ClosedWalk(ByName(services), p);
      }
    }
    if p :| ClosedWalk(ByName(services), p) {
      assert DeclaredClosedWalk(services, p);
    }
    if i :| 0 <= i < |services| && ListsItself(services[i]) {
      var n := services[i].name;
      assert Declares(services, n, n);
      assert DeclaredClosedWalk(services, [n, n]);
    }
  }
}
