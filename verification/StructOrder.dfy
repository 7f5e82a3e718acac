/**
 The IDL compiler's ordering of structs: Kahn's algorithm on the dependencies between the
 structs of one file. It succeeds exactly when no struct depends on itself through others,
 and then lists every struct after all its dependencies.
 */
module StructOrder {

  type Name = string

  /** The dependencies of every struct. */
  type Graph = map<Name, set<Name>>

  /** All dependencies are structs of the file, which the type check guarantees. */
  predicate Closed(g: Graph) {
    forall n, d :: n in g && d in g[n] ==> d in g
  }

  predicate NoRepeats(s: seq<Name>) {
    forall i, j :: 0 <= i < j < |s| ==> s[i] != s[j]
  }

  function Elements(s: seq<Name>): set<Name> {
    set x | x in s
  }

  /** The file's structs, in any order. */
  predicate Enumerates(names: seq<Name>, g: Graph) {
    NoRepeats(names) && Elements(names) == g.Keys
  }

  /** Each node depends on the next one. */
  predicate IsPath(g: Graph, p: seq<Name>) {
    && |p| >= 1
    && (forall i :: 0 <= i < |p| ==> p[i] in g)
    && (forall i :: 0 <= i < |p| - 1 ==> p[i + 1] in g[p[i]])
  }

  predicate IsCycle(g: Graph, p: seq<Name>) {
    IsPath(g, p) && |p| >= 2 && p[0] == p[|p| - 1]
  }

  ghost predicate HasCycle(g: Graph) {
    exists p :: IsCycle(g, p)
  }

  /** Every struct once, after all its dependencies. */
  predicate IsOrdered(g: Graph, order: seq<Name>) {
    && NoRepeats(order) && Elements(order) == g.Keys
    && DependenciesFirst(g, order)
  }

  predicate DependenciesFirst(g: Graph, order: seq<Name>) {
    forall i :: 0 <= i < |order| ==> order[i] in g && g[order[i]] <= Elements(order[..i])
  }

  // ---------- ordered graphs have no cycle ----------

  lemma DependencyIsEarlier(g: Graph, order: seq<Name>, n: Name, d: Name, i: nat, j: nat)
    requires IsOrdered(g, order) && n in g && d in g[n]
    requires i < |order| && j < |order| && order[i] == n && order[j] == d
    ensures j < i
  {
    assert d in Elements(order[..i]);
    var k :| 0 <= k < i && order[..i][k] == d;
    assert order[k] == d;
    assert k == j;
  }

  lemma PlaceOf(g: Graph, order: seq<Name>, n: Name) returns (i: nat)
    requires IsOrdered(g, order) && n in g
    ensures i < |order| && order[i] == n
  {
    assert n in Elements(order);
    i :| 0 <= i < |order| && order[i] == n;
  }

  /** Along a path the places only go down. */
  lemma {:induction false} PathGoesDown(g: Graph, order: seq<Name>, p: seq<Name>, i: nat, j: nat)
    requires IsOrdered(g, order) && IsPath(g, p)
    requires i < |order| && j < |order| && order[i] == p[0] && order[j] == p[|p| - 1]
    ensures j + |p| - 1 <= i
  {
    if |p| == 1 {
      assert i == j;
    } else {
      var k := PlaceOf(g, order, p[1]);
      DependencyIsEarlier(g, order, p[0], p[1], i, k);
      PathGoesDown(g, order, p[1..], k, j);
    }
  }

  lemma OrderedHasNoCycle(g: Graph, order: seq<Name>)
    requires IsOrdered(g, order)
    ensures !HasCycle(g)
  {
    if HasCycle(g) {
      var p :| IsCycle(g, p);
      var i := PlaceOf(g, order, p[0]);
      PathGoesDown(g, order, p, i, i);
    }
  }

  // ---------- stuck graphs have one ----------

  /** Every struct of `stuck` depends on another struct of `stuck`. */
  predicate IsStuck(g: Graph, stuck: set<Name>) {
    stuck <= g.Keys && forall n :: n in stuck ==> g[n] * stuck != {}
  }

  lemma {:induction false} LongPath(g: Graph, stuck: set<Name>, n: Name, length: nat) returns (p: seq<Name>)
    requires IsStuck(g, stuck) && n in stuck && length >= 1
    decreases length
    ensures IsPath(g, p) && |p| == length && p[0] == n && Elements(p) <= stuck
  {
    if length == 1 {
      p := [n];
    } else {
      var d :| d in g[n] * stuck;
      var rest := LongPath(g, stuck, d, length - 1);
      p := [n] + rest;
      assert forall i :: 0 <= i < |p| - 1 ==> p[i + 1] == rest[i];
      assert forall i :: 1 <= i < |p| ==> p[i] == rest[i - 1];
    }
  }

  lemma {:induction false} NoRepeatsAreFew(s: seq<Name>, within: set<Name>)
    requires NoRepeats(s) && Elements(s) <= within
    ensures |s| <= |within|
    ensures |s| == |within| ==> Elements(s) == within
  {
    if |s| > 0 {
      var last, front := s[|s| - 1], s[..|s| - 1];
      assert forall x :: x in front ==> x in s;
      assert last !in front;
      NoRepeatsAreFew(front, within - {last});
      assert Elements(s) == Elements(front) + {last};
    } else if |within| == 0 {
      assert Elements(s) == within;
    }
  }

  lemma StuckHasCycle(g: Graph, stuck: set<Name>)
    requires IsStuck(g, stuck) && stuck != {}
    ensures HasCycle(g)
  {
    var n :| n in stuck;
    var p := LongPath(g, stuck, n, |stuck| + 1);
    if NoRepeats(p) {
      NoRepeatsAreFew(p, stuck);
    } else {
      var i, j :| 0 <= i < j < |p| && p[i] == p[j];
      var cycle := p[i..j + 1];
      assert forall k :: 0 <= k < |cycle| ==> cycle[k] == p[i + k];
      assert IsCycle(g, cycle);
    }
  }

  // ---------- Kahn's algorithm ----------

  /** How many dependencies are not listed yet. */
  function Missing(g: Graph, n: Name, listed: set<Name>): nat
    requires n in g
  {
    |g[n] - listed|
  }

  lemma MissingAfter(g: Graph, n: Name, listed: set<Name>, cur: Name)
    requires n in g && cur !in listed
    ensures Missing(g, n, listed + {cur}) == if cur in g[n] then Missing(g, n, listed) - 1 else Missing(g, n, listed)
  {
    if cur in g[n] {
      assert g[n] - listed == (g[n] - (listed + {cur})) + {cur};
    } else {
      assert g[n] - listed == g[n] - (listed + {cur});
    }
  }

  /** The structs that depend on `d`. */
  ghost predicate AreDependents(g: Graph, d: Name, s: seq<Name>) {
    NoRepeats(s) && forall n :: n in s <==> n in g && d in g[n]
  }

  lemma Pushed(s: seq<Name>, x: Name)
    requires NoRepeats(s) && x !in s
    ensures NoRepeats(s + [x]) && Elements(s + [x]) == Elements(s) + {x}
    ensures forall y :: y in s + [x] <==> y in s || y == x
  {
  }

  /** Appends one struct to the lists of its dependencies. */
  method AddDependent(rev0: map<Name, seq<Name>>, name: Name, deps: set<Name>) returns (rev: map<Name, seq<Name>>)
    requires deps <= rev0.Keys
    ensures rev.Keys == rev0.Keys
    ensures forall d :: d in rev0 ==> rev[d] == if d in deps then rev0[d] + [name] else rev0[d]
  {
    rev := rev0;
    var todo := deps;
    while todo != {}
      invariant todo <= deps && rev.Keys == rev0.Keys
      invariant forall d :: d in rev0 ==> rev[d] == if d in deps - todo then rev0[d] + [name] else rev0[d]
      decreases |todo|
    {
      var d :| d in todo;
      rev := rev[d := rev[d] + [name]];
      todo := todo - {d};
    }
  }

  /** `s` lists the structs of `seen` that depend on `d`. */
  ghost predicate AreDependentsIn(g: Graph, d: Name, s: seq<Name>, seen: set<Name>) {
    NoRepeats(s) && forall n :: n in s <==> n in seen && n in g && d in g[n]
  }

  lemma DependentAdded(g: Graph, d: Name, s: seq<Name>, seen: set<Name>, name: Name)
    requires AreDependentsIn(g, d, s, seen) && name in g && name !in seen
    ensures AreDependentsIn(g, d, if d in g[name] then s + [name] else s, seen + {name})
  {
    assert name !in s;
    Pushed(s, name);
  }

  /** The reverse adjacency lists. */
  method BuildReverse(g: Graph, names: seq<Name>) returns (rev: map<Name, seq<Name>>)
    requires Closed(g) && Enumerates(names, g)
    ensures rev.Keys == g.Keys && forall d :: d in g ==> AreDependents(g, d, rev[d])
  {
    hide NoRepeats, AreDependentsIn, AreDependents, Closed, Elements;
    ClosedHasKeys(g);
    rev := map n | n in g :: [];
    ghost var seen := {};
    forall d | d in g
      ensures AreDependentsIn(g, d, rev[d], {})
    {
      NoneSeen(g, d);
    }
    NoElements();
    assert names[..0] == [];
    for i := 0 to |names|
      invariant seen == Elements(names[..i]) && rev.Keys == g.Keys
      invariant forall d :: d in g ==> AreDependentsIn(g, d, rev[d], seen)
    {
      NextElement(names, i);
      ghost var before := rev;
      rev := AddDependent(rev, names[i], g[names[i]]);
      AllListsGrow(g, before, rev, seen, names[i]);
      seen := seen + {names[i]};
    }
    assert names[..|names|] == names;
    forall d | d in g
      ensures AreDependents(g, d, rev[d])
    {
      AllSeen(g, d, rev[d]);
    }
  }

  lemma AllListsGrow(g: Graph, before: map<Name, seq<Name>>, rev: map<Name, seq<Name>>, seen: set<Name>, name: Name)
    requires before.Keys == rev.Keys == g.Keys && name in g && name !in seen
    requires forall d :: d in g ==> AreDependentsIn(g, d, before[d], seen)
    requires forall d :: d in g ==> rev[d] == if d in g[name] then before[d] + [name] else before[d]
    ensures forall d :: d in g ==> AreDependentsIn(g, d, rev[d], seen + {name})
  {
    hide NoRepeats, AreDependentsIn;
    forall d | d in g
      ensures AreDependentsIn(g, d, rev[d], seen + {name})
    {
      DependentAdded(g, d, before[d], seen, name);
    }
  }

  lemma NoElements()
    ensures Elements([]) == {}
  {
  }

  lemma NextElement(names: seq<Name>, i: nat)
    requires NoRepeats(names) && i < |names|
    ensures Elements(names[..i + 1]) == Elements(names[..i]) + {names[i]}
    ensures names[i] !in Elements(names[..i]) && names[i] in Elements(names)
  {
    assert names[..i + 1] == names[..i] + [names[i]];
  }

  lemma ClosedHasKeys(g: Graph)
    requires Closed(g)
    ensures forall n :: n in g ==> g[n] <= g.Keys
  {
  }

  lemma NoneSeen(g: Graph, d: Name)
    ensures AreDependentsIn(g, d, [], {})
  {
  }

  lemma AllSeen(g: Graph, d: Name, s: seq<Name>)
    requires AreDependentsIn(g, d, s, g.Keys)
    ensures AreDependents(g, d, s)
  {
  }

  lemma Unseen(names: seq<Name>, i: nat)
    requires NoRepeats(names) && i < |names|
    ensures names[i] !in names[..i]
  {
  }

  predicate KahnState(g: Graph, inDeg: map<Name, int>, queue: seq<Name>, order: seq<Name>) {
    && inDeg.Keys == g.Keys
    && NoRepeats(queue) && NoRepeats(order) && Elements(queue) !! Elements(order)
    && Elements(queue) <= g.Keys && Elements(order) <= g.Keys
    && (forall n :: n in g ==> inDeg[n] == Missing(g, n, Elements(order)))
    && (forall n :: n in g ==> (n in Elements(queue) + Elements(order) <==> inDeg[n] == 0))
    && DependenciesFirst(g, order)
  }

  /** The structs whose degree is zero. */
  method ZeroDegrees(inDeg: map<Name, int>, names: seq<Name>) returns (queue: seq<Name>)
    requires NoRepeats(names) && forall n :: n in names ==> n in inDeg
    ensures NoRepeats(queue) && forall n :: n in queue <==> n in names && inDeg[n] == 0
  {
    hide NoRepeats;
    queue := [];
    EmptyHasNone();
    for i := 0 to |names|
      invariant NoRepeats(queue) && forall n :: n in queue <==> n in names[..i] && inDeg[n] == 0
    {
      Unseen(names, i);
      if inDeg[names[i]] == 0 {
        Pushed(queue, names[i]);
        queue := queue + [names[i]];
      }
      assert names[..i + 1] == names[..i] + [names[i]];
    }
    assert names[..|names|] == names;
  }

  /** The degrees and the queue at the start. */
  method Start(g: Graph, names: seq<Name>) returns (inDeg: map<Name, int>, queue: seq<Name>)
    requires Enumerates(names, g)
    ensures KahnState(g, inDeg, queue, [])
  {
    hide NoRepeats, KahnState;
    assert forall n :: n in names ==> n in Elements(names);
    inDeg := map n | n in g :: |g[n]|;
    queue := ZeroDegrees(inDeg, names);
    StartState(g, names, inDeg, queue);
  }

  lemma StartState(g: Graph, names: seq<Name>, inDeg: map<Name, int>, queue: seq<Name>)
    requires Enumerates(names, g) && inDeg.Keys == g.Keys && forall n :: n in g ==> inDeg[n] == |g[n]|
    requires NoRepeats(queue) && forall n :: n in queue <==> n in names && n in g && inDeg[n] == 0
    ensures KahnState(g, inDeg, queue, [])
  {
    hide NoRepeats, DependenciesFirst, Missing;
    EmptyHasNone();
    NothingListed(g);
    assert Elements([]) == {};
    assert Elements(queue) <= g.Keys;
    forall n | n in g
      ensures n in Elements(queue) + Elements([]) <==> inDeg[n] == 0
    {
      assert n in Elements(names);
    }
  }

  lemma NothingListed(g: Graph)
    ensures DependenciesFirst(g, []) && forall n :: n in g ==> Missing(g, n, {}) == |g[n]|
  {
    forall n | n in g
      ensures Missing(g, n, {}) == |g[n]|
    {
      assert g[n] - {} == g[n];
    }
  }

  lemma EmptyHasNone()
    ensures NoRepeats([])
  {
  }

  /** While the dependents of `cur` are gone through: those in `processed` no longer miss it. */
  predicate Releasing(g: Graph, inDeg: map<Name, int>, queue: seq<Name>, order: seq<Name>, listed: set<Name>,
      cur: Name, processed: set<Name>) {
    && inDeg.Keys == g.Keys
    && NoRepeats(queue) && Elements(queue) !! Elements(order) && Elements(queue) <= g.Keys
    && (forall n :: n in g ==> inDeg[n] == if n in processed then Missing(g, n, listed + {cur})
      else Missing(g, n, listed))
    && (forall n :: n in g ==> (n in Elements(queue) + Elements(order) <==> inDeg[n] == 0))
  }

  lemma Released(g: Graph, inDeg: map<Name, int>, queue: seq<Name>, order: seq<Name>, listed: set<Name>, cur: Name,
      processed: set<Name>, n: Name)
    requires Releasing(g, inDeg, queue, order, listed, cur, processed)
    requires n in g && cur in g[n] && cur !in listed && n !in processed
    ensures Releasing(g, inDeg[n := inDeg[n] - 1], if inDeg[n] == 1 then queue + [n]
      else queue, order, listed, cur, processed + {n})
  {
    hide Missing, NoRepeats, Elements;
    MissingAfter(g, n, listed, cur);
    if inDeg[n] == 1 {
      assert n !in Elements(queue);
      assert n !in queue by { InElements(queue); }
      Pushed(queue, n);
    }
  }

  lemma InElements(s: seq<Name>)
    ensures forall x :: x in s <==> x in Elements(s)
  {
  }

  /** Takes one struct from the queue's end. */
  method Step(g: Graph, rev: map<Name, seq<Name>>, inDeg0: map<Name, int>, queue0: seq<Name>, order0: seq<Name>)
    returns (inDeg: map<Name, int>, queue: seq<Name>, order: seq<Name>)
    requires rev.Keys == g.Keys && forall d :: d in g ==> AreDependents(g, d, rev[d])
    requires KahnState(g, inDeg0, queue0, order0) && queue0 != []
    ensures KahnState(g, inDeg, queue, order) && |order| == |order0| + 1
  {
    hide Missing, NoRepeats, DependenciesFirst, Releasing, Elements;
    inDeg, queue, order := inDeg0, queue0, order0;
    var cur := queue[|queue| - 1];
    queue := queue[..|queue| - 1];
    order := order + [cur];
    ghost var listed := Elements(order0);
    TakenFromQueue(g, inDeg0, queue0, order0);
    var dependents := rev[cur];
    assert dependents[..0] == [];
    NoElements();
    for j := 0 to |dependents|
      invariant Releasing(g, inDeg, queue, order, listed, cur, Elements(dependents[..j]))
      invariant inDeg.Keys == g.Keys
    {
      var dependent := dependents[j];
      NextElement(dependents, j);
      assert dependent in dependents;
      Released(g, inDeg, queue, order, listed, cur, Elements(dependents[..j]), dependent);
      inDeg := inDeg[dependent := inDeg[dependent] - 1];
      if inDeg[dependent] == 0 {
        queue := queue + [dependent];
      }
    }
    assert dependents[..|dependents|] == dependents;
    AllReleased(g, inDeg, queue, order0, cur, dependents);
  }

  lemma TakenFromQueue(g: Graph, inDeg: map<Name, int>, queue: seq<Name>, order: seq<Name>)
    requires KahnState(g, inDeg, queue, order) && queue != []
    ensures var cur, rest := queue[|queue| - 1], queue[..|queue| - 1];
      && cur in g && cur !in Elements(order)
      && Releasing(g, inDeg, rest, order + [cur], Elements(order), cur, {})
      && NoRepeats(order + [cur]) && DependenciesFirst(g, order + [cur])
      && Elements(order + [cur]) == Elements(order) + {cur}
  {
    hide Missing, NoRepeats, DependenciesFirst;
    var cur := queue[|queue| - 1];
    Popped(queue);
    Listed(g, order, cur);
    Pushed(order, cur);
  }

  lemma AllReleased(g: Graph, inDeg: map<Name, int>, queue: seq<Name>, order: seq<Name>, cur: Name,
      dependents: seq<Name>)
    requires Releasing(g, inDeg, queue, order + [cur], Elements(order), cur, Elements(dependents))
    requires AreDependents(g, cur, dependents) && cur in g && cur !in Elements(order) && Elements(order) <= g.Keys
    requires NoRepeats(order + [cur]) && DependenciesFirst(g, order + [cur])
      && Elements(order + [cur]) == Elements(order) + {cur}
    ensures KahnState(g, inDeg, queue, order + [cur])
  {
    hide Missing, NoRepeats, DependenciesFirst;
    forall n | n in g
      ensures inDeg[n] == Missing(g, n, Elements(order + [cur]))
    {
      MissingAfter(g, n, Elements(order), cur);
    }
  }

  lemma Popped(queue: seq<Name>)
    requires NoRepeats(queue) && queue != []
    ensures var cur, rest := queue[|queue| - 1], queue[..|queue| - 1];
      NoRepeats(rest) && cur !in rest && Elements(rest) == Elements(queue) - {cur} && cur in queue
  {
    var cur, rest := queue[|queue| - 1], queue[..|queue| - 1];
    assert queue == rest + [cur];
  }

  /** A struct without missing dependencies can be listed next. */
  lemma Listed(g: Graph, order: seq<Name>, cur: Name)
    requires DependenciesFirst(g, order) && cur in g && Missing(g, cur, Elements(order)) == 0
    ensures DependenciesFirst(g, order + [cur])
  {
    assert g[cur] - Elements(order) == {};
    var next := order + [cur];
    forall i | 0 <= i < |next|
      ensures next[i] in g && g[next[i]] <= Elements(next[..i])
    {
      assert next[..i] == order[..i];
      if i < |order| {
        assert next[i] == order[i];
      } else {
        assert order[..i] == order;
        assert forall d :: d in g[cur] && d !in Elements(order) ==> d in g[cur] - Elements(order);
      }
    }
  }

  /** `topologicalSort`, for a file without imported structs. `names` is the order in which
      the structs are visited, which the source leaves open. */
  method TopologicalSort(g: Graph, names: seq<Name>) returns (ok: bool, order: seq<Name>)
    requires Closed(g) && Enumerates(names, g)
    ensures ok <==> !HasCycle(g)
    ensures ok ==> IsOrdered(g, order)
  {
    hide HasCycle, IsCycle;
    var rev := BuildReverse(g, names);
    var inDeg, queue := Start(g, names);
    order := [];
    NoRepeatsAreFew(names, g.Keys);
    while queue != []
      invariant KahnState(g, inDeg, queue, order) && |order| <= |g.Keys|
      decreases |g.Keys| - |order|
    {
      inDeg, queue, order := Step(g, rev, inDeg, queue, order);
      ListedAreFew(g, inDeg, queue, order);
    }
    ok := |order| == |names|;
    AllNamed(names, g);
    Finished(g, inDeg, order);
  }

  lemma ListedAreFew(g: Graph, inDeg: map<Name, int>, queue: seq<Name>, order: seq<Name>)
    requires KahnState(g, inDeg, queue, order)
    ensures |order| <= |g.Keys|
  {
    NoRepeatsAreFew(order, g.Keys);
  }

  lemma AllNamed(names: seq<Name>, g: Graph)
    requires Enumerates(names, g)
    ensures |names| == |g.Keys|
  {
    SizeOfNoRepeats(names);
  }

  lemma {:induction false} SizeOfNoRepeats(s: seq<Name>)
    requires NoRepeats(s)
    ensures |Elements(s)| == |s|
  {
    if |s| > 0 {
      var last, front := s[|s| - 1], s[..|s| - 1];
      SizeOfNoRepeats(front);
      assert last !in front;
      assert Elements(s) == Elements(front) + {last};
    }
  }

  /** When the queue is empty, everything is listed or the rest is stuck. */
  lemma Finished(g: Graph, inDeg: map<Name, int>, order: seq<Name>)
    requires Closed(g) && KahnState(g, inDeg, [], order)
    ensures |order| == |g.Keys| ==> IsOrdered(g, order) && !HasCycle(g)
    ensures |order| != |g.Keys| ==> HasCycle(g)
  {
    hide HasCycle, NoRepeats, DependenciesFirst, IsStuck, Missing;
    NoRepeatsAreFew(order, g.Keys);
    if |order| == |g.Keys| {
      OrderedHasNoCycle(g, order);
    } else {
      SizeOfNoRepeats(order);
      assert g.Keys - Elements(order) != {} by {
        assert g.Keys - Elements(order) + Elements(order) == g.Keys;
      }
      RestIsStuck(g, inDeg, order);
      StuckHasCycle(g, g.Keys - Elements(order));
    }
  }

  lemma RestIsStuck(g: Graph, inDeg: map<Name, int>, order: seq<Name>)
    requires Closed(g) && KahnState(g, inDeg, [], order)
    ensures IsStuck(g, g.Keys - Elements(order))
  {
    hide NoRepeats, DependenciesFirst;
    var stuck := g.Keys - Elements(order);
    forall n | n in stuck
      ensures g[n] * stuck != {}
    {
      assert n !in Elements([]);
      assert inDeg[n] != 0;
      var d :| d in g[n] - Elements(order);
      assert d in g[n] * stuck;
    }
  }
}
