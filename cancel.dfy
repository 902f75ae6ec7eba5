/**
  * `Cancelable.prototype.cancel` (src/index.js:154-188) as a function of the whole object
  * graph: the iterative walk up the `parent` chain, the recursive cancelation of
  * `children`, the hook invocations and the forced rejection of roots.
  */
module Cancelation {
  import opened Wrappers
  import opened Values
  import opened Graph

  /** Every `Cancelable` object, and every hook invocation so far, oldest first. */
  datatype World = World(nodes: seq<Node>, log: seq<HookCall>)

  /** The hook invocation, if any, that visiting `nd` (node `id`) with argument `cb` makes. */
  function HookCalls(nd: Node, id: nat, cb: Callback): (calls: seq<HookCall>)
    ensures |calls| <= 1
    ensures forall k :: 0 <= k < |calls| ==>
      calls[k].node == id && calls[k].arg == cb && nd.onCancel == Some(Callable(calls[k].hook))
    ensures calls == [] <==> !(nd.onCancel.Some? && nd.onCancel.value.Callable?)
  {
    match nd.onCancel
    case Some(Callable(h)) => [HookCall(id, h, cb)]
    case _ => []
  }

  /**
    * One turn of the walk at node `cur`, after its children have been canceled: clear
    * `children`, set `canceled`, run the hook with `cb`, and force-reject the promise if
    * `cur` has no parent.
    */
  function Visit(s: World, cur: nat, cb: Callback): (r: World)
    requires WellFormed(s.nodes) && cur < |s.nodes|
    requires s.nodes[cur].children.Some? ==>
      forall c :: c in s.nodes[cur].children.value ==> s.nodes[c].canceled
    ensures WellFormed(r.nodes) && NodesEvolve(s.nodes, r.nodes)
    ensures r.nodes[cur].canceled && r.nodes[cur].children.None?
    ensures r.nodes[cur].parent.None? ==> !r.nodes[cur].promise.Pending?
    ensures forall i :: 0 <= i < |s.nodes| && i != cur ==> r.nodes[i] == s.nodes[i]
    ensures r.log == s.log + HookCalls(s.nodes[cur], cur, cb)
  {
    var nd := s.nodes[cur];
    var promise := if nd.parent.None? then SettleOnce(nd.promise, Rejected(CancelationError)) else nd.promise;
    var nodes := s.nodes[cur := nd.(children := None, canceled := true, promise := promise)];
    assert LinksBelow(s.nodes[cur], cur);
    EvolvesKeepsWellFormed(s.nodes, nodes);
    World(nodes, s.log + HookCalls(nd, cur, cb))
  }

  /** Clearing `children` before the visit, as the source does inside `if (current.children)`, changes nothing. */
  lemma VisitAfterClearing(s: World, cur: nat, cb: Callback)
    requires WellFormed(s.nodes) && cur < |s.nodes|
    requires s.nodes[cur].children.Some? ==>
      forall c :: c in s.nodes[cur].children.value ==> s.nodes[c].canceled
    ensures var cleared := s.nodes[cur := s.nodes[cur].(children := None)];
      WellFormed(cleared) && Visit(World(cleared, s.log), cur, cb) == Visit(s, cur, cb)
  {
    var cleared := s.nodes[cur := s.nodes[cur].(children := None)];
    assert LinksBelow(s.nodes[cur], cur);
    assert forall i :: 0 <= i < |cleared| && i != cur ==> cleared[i] == s.nodes[i];
    assert Visit(World(cleared, s.log), cur, cb).nodes == Visit(s, cur, cb).nodes;
  }

  /** What a call to `cancel` with hook argument `cb` on node `n` does. */
  function CancelFrom(s: World, n: nat, cb: Callback): (r: World)
    requires WellFormed(s.nodes) && n < |s.nodes|
    ensures WellFormed(r.nodes) && NodesEvolve(s.nodes, r.nodes)
    ensures r.nodes[n].canceled
    ensures s.nodes[n].canceled ==> r == s
    ensures forall i :: n < i < |s.nodes| ==> r.nodes[i] == s.nodes[i]
    ensures s.log <= r.log
    ensures forall k :: |s.log| <= k < |r.log| ==>
      r.log[k].node <= n && (r.log[k].arg == cb || r.log[k].arg == DefaultNoOp) &&
      s.nodes[r.log[k].node].onCancel == Some(Callable(r.log[k].hook))
    decreases n, 3, 0
  {
    if s.nodes[n].canceled then s else Walk(s, n, cb)
  }

  /** The `while (current)` loop, entered with `current` at node `cur`. */
  function Walk(s: World, cur: nat, cb: Callback): (r: World)
    requires WellFormed(s.nodes) && cur < |s.nodes|
    ensures WellFormed(r.nodes) && NodesEvolve(s.nodes, r.nodes)
    ensures r.nodes[cur].canceled
    ensures forall i :: cur < i < |s.nodes| ==> r.nodes[i] == s.nodes[i]
    ensures s.log <= r.log
    ensures forall k :: |s.log| <= k < |r.log| ==>
      r.log[k].node <= cur && (r.log[k].arg == cb || r.log[k].arg == DefaultNoOp) &&
      s.nodes[r.log[k].node].onCancel == Some(Callable(r.log[k].hook))
    decreases cur, 2, 0
  {
    assert LinksBelow(s.nodes[cur], cur);
    var s1 := ChildrenDone(s, cur);
    var s2 := Visit(s1, cur, cb);
    EvolvesTransitive(s.nodes, s1.nodes, s2.nodes);
    match s.nodes[cur].parent
    case None => s2
    case Some(p) =>
      var r := Walk(s2, p, cb);
      EvolvesTransitive(s.nodes, s2.nodes, r.nodes);
      r
  }

  /** The `if (current.children)` block before `cur` is marked: its children are canceled. */
  function ChildrenDone(s: World, cur: nat): (r: World)
    requires WellFormed(s.nodes) && cur < |s.nodes|
    ensures WellFormed(r.nodes) && NodesEvolve(s.nodes, r.nodes)
    ensures s.nodes[cur].children.Some? ==> forall c :: c in s.nodes[cur].children.value ==> r.nodes[c].canceled
    ensures forall i :: cur <= i < |s.nodes| ==> r.nodes[i] == s.nodes[i]
    ensures s.log <= r.log
    ensures forall k :: |s.log| <= k < |r.log| ==>
      r.log[k].node < cur && r.log[k].arg == DefaultNoOp &&
      s.nodes[r.log[k].node].onCancel == Some(Callable(r.log[k].hook))
    decreases cur, 1, 0
  {
    assert LinksBelow(s.nodes[cur], cur);
    match s.nodes[cur].children
    case Some(cs) => CancelChildren(s, cs, cur)
    case None => s
  }

  /** The `for (let child of current.children)` loop: each child is canceled with the default `cb`. */
  function CancelChildren(s: World, cs: seq<nat>, bound: nat): (r: World)
    requires WellFormed(s.nodes) && bound <= |s.nodes|
    requires forall c :: c in cs ==> c < bound
    ensures WellFormed(r.nodes) && NodesEvolve(s.nodes, r.nodes)
    ensures forall c :: c in cs ==> r.nodes[c].canceled
    ensures forall i :: bound <= i < |s.nodes| ==> r.nodes[i] == s.nodes[i]
    ensures s.log <= r.log
    ensures forall k :: |s.log| <= k < |r.log| ==>
      r.log[k].node < bound && r.log[k].arg == DefaultNoOp &&
      s.nodes[r.log[k].node].onCancel == Some(Callable(r.log[k].hook))
    decreases bound, 0, |cs|
  {
    if cs == [] then s
    else
      assert cs[0] in cs;
      assert forall x :: x in cs[1..] ==> x in cs;
      var s1 := CancelFrom(s, cs[0], DefaultNoOp);
      var r := CancelChildren(s1, cs[1..], bound);
      EvolvesTransitive(s.nodes, s1.nodes, r.nodes);
      assert forall c :: c in cs ==> c == cs[0] || c in cs[1..];
      r
  }

  /** The first turn of the children loop, unfolded. */
  lemma CancelChildrenStep(s: World, cs: seq<nat>, bound: nat)
    requires WellFormed(s.nodes) && bound <= |s.nodes| && cs != []
    requires forall c :: c in cs ==> c < bound
    ensures cs[0] < bound && forall c :: c in cs[1..] ==> c < bound
    ensures CancelChildren(s, cs, bound) == CancelChildren(CancelFrom(s, cs[0], DefaultNoOp), cs[1..], bound)
  {
    assert cs[0] in cs;
    assert forall c :: c in cs[1..] ==> c in cs;
  }

  /** Nodes in `[lo, hi)` that did not change and were consistent stay consistent. */
  lemma ConsistentExtends(before: seq<Node>, after: seq<Node>, lo: nat, hi: nat)
    requires NodesEvolve(before, after) && ConsistentBelow(after, lo)
    requires forall i :: lo <= i < hi && i < |before| ==> after[i] == before[i] && NodeConsistent(before, i)
    ensures ConsistentBelow(after, hi)
  {
    forall i | 0 <= i < hi && i < |after| ensures NodeConsistent(after, i) {
      if lo <= i {
        assert after[i] == before[i] && NodeConsistent(before, i);
        if after[i].canceled && after[i].parent.Some? {
          assert Evolves(before[after[i].parent.value], after[after[i].parent.value]);
        }
      }
    }
  }

  lemma {:induction false} CancelFromConsistent(s: World, n: nat, cb: Callback)
    requires WellFormed(s.nodes) && n < |s.nodes| && ConsistentBelow(s.nodes, n + 1)
    ensures ConsistentBelow(CancelFrom(s, n, cb).nodes, n + 1)
    decreases n, 2, 0
  {
    if !s.nodes[n].canceled {
      WalkConsistent(s, n, cb);
    }
  }

  lemma {:induction false} WalkConsistent(s: World, cur: nat, cb: Callback)
    requires WellFormed(s.nodes) && cur < |s.nodes| && ConsistentBelow(s.nodes, cur + 1)
    ensures ConsistentBelow(Walk(s, cur, cb).nodes, cur + 1)
    decreases cur, 1, 0
  {
    assert LinksBelow(s.nodes[cur], cur);
    var s1 := ChildrenDone(s, cur);
    if s.nodes[cur].children.Some? {
      ChildrenConsistent(s, s.nodes[cur].children.value, cur);
      ConsistentExtends(s.nodes, s1.nodes, cur, cur + 1);
    }
    var s2 := Visit(s1, cur, cb);
    ConsistentExtends(s1.nodes, s2.nodes, 0, cur);
    match s.nodes[cur].parent
    case None =>
      assert NodeConsistent(s2.nodes, cur);
      assert ConsistentBelow(s2.nodes, cur + 1);
    case Some(p) =>
      WalkConsistent(s2, p, cb);
      var r := Walk(s2, p, cb);
      ConsistentExtends(s2.nodes, r.nodes, p + 1, cur);
      assert NodeConsistent(r.nodes, cur);
  }

  lemma {:induction false} ChildrenConsistent(s: World, cs: seq<nat>, bound: nat)
    requires WellFormed(s.nodes) && bound <= |s.nodes|
    requires forall c :: c in cs ==> c < bound
    requires ConsistentBelow(s.nodes, bound)
    ensures ConsistentBelow(CancelChildren(s, cs, bound).nodes, bound)
    decreases bound, 0, |cs|
  {
    if cs != [] {
      assert cs[0] in cs;
      assert forall x :: x in cs[1..] ==> x in cs;
      CancelFromConsistent(s, cs[0], DefaultNoOp);
      var s1 := CancelFrom(s, cs[0], DefaultNoOp);
      ConsistentExtends(s.nodes, s1.nodes, cs[0] + 1, bound);
      ChildrenConsistent(s1, cs[1..], bound);
    }
  }

  /**
    * In a consistent graph reached from `before` by cancelation steps, everything
    * `before` linked to a canceled node is canceled as well.
    */
  lemma {:induction false} ClosureCanceled(before: seq<Node>, after: seq<Node>, x: nat)
    requires WellFormed(before) && NodesEvolve(before, after)
    requires x < |before| && ConsistentBelow(after, x + 1) && after[x].canceled
    ensures forall d :: d in Closure(before, x) ==> after[d].canceled
    decreases x, 1, 0
  {
    assert LinksBelow(before[x], x);
    assert NodeConsistent(after, x) && Evolves(before[x], after[x]);
    if before[x].parent.Some? {
      ClosureCanceled(before, after, before[x].parent.value);
    }
    if before[x].children.Some? {
      assert after[x].children != before[x].children;
      ClosureAllCanceled(before, after, before[x].children.value, x);
    }
  }

  lemma {:induction false} ClosureAllCanceled(before: seq<Node>, after: seq<Node>, cs: seq<nat>, bound: nat)
    requires WellFormed(before) && NodesEvolve(before, after) && bound <= |before|
    requires forall c :: c in cs ==> c < bound && after[c].canceled
    requires ConsistentBelow(after, bound)
    ensures forall d :: d in ClosureAll(before, cs, bound) ==> after[d].canceled
    decreases bound, 0, |cs|
  {
    if cs != [] {
      assert cs[0] in cs;
      assert forall x :: x in cs[1..] ==> x in cs;
      ClosureCanceled(before, after, cs[0]);
      ClosureAllCanceled(before, after, cs[1..], bound);
    }
  }

  /**
    * Canceling node `n` of a consistent graph cancels `n`, its parent chain and, through
    * `children` recursively, every child with its own parent chain; the graph stays
    * consistent, so every canceled node holds no children afterwards.
    */
  lemma CancelCancelsClosure(s: World, n: nat, cb: Callback)
    requires WellFormed(s.nodes) && n < |s.nodes| && ConsistentBelow(s.nodes, n + 1)
    ensures var r := CancelFrom(s, n, cb);
      ConsistentBelow(r.nodes, n + 1) &&
      (forall d :: d in Closure(s.nodes, n) ==> r.nodes[d].canceled && r.nodes[d].children.None?)
    ensures Consistent(s.nodes) ==> Consistent(CancelFrom(s, n, cb).nodes)
  {
    var r := CancelFrom(s, n, cb);
    CancelFromConsistent(s, n, cb);
    if Consistent(s.nodes) {
      ConsistentExtends(s.nodes, r.nodes, n + 1, |s.nodes|);
    }
    ClosureCanceled(s.nodes, r.nodes, n);
    forall d | d in Closure(s.nodes, n) ensures r.nodes[d].children.None? {
      assert NodeConsistent(r.nodes, d);
    }
  }

  /** `CancelCancelsClosure` for every starting state, as the cancel loop promises it. */
  lemma CancelKeepsConsistent(s: World, n: nat, cb: Callback)
    requires WellFormed(s.nodes) && n < |s.nodes|
    ensures Consistent(s.nodes) ==> Consistent(CancelFrom(s, n, cb).nodes)
    ensures ConsistentBelow(s.nodes, n + 1) ==>
      forall d :: d in Closure(s.nodes, n) ==> CancelFrom(s, n, cb).nodes[d].canceled && CancelFrom(s, n, cb).nodes[d].children.None?
  {
    if ConsistentBelow(s.nodes, n + 1) {
      CancelCancelsClosure(s, n, cb);
    }
  }

  /**
    * Canceling a node of a consistent graph settles the promise of every root it reaches:
    * a pending one is rejected with `CancelationError`, a settled one keeps its outcome.
    * No other promise changes.
    */
  lemma CancelRejectsRoots(s: World, n: nat, cb: Callback)
    requires WellFormed(s.nodes) && n < |s.nodes| && ConsistentBelow(s.nodes, n + 1)
    ensures var r := CancelFrom(s, n, cb);
      (forall d :: d in Closure(s.nodes, n) && s.nodes[d].parent.None? ==>
         r.nodes[d].promise == SettleOnce(s.nodes[d].promise, Rejected(CancelationError))) &&
      (forall i :: 0 <= i < |s.nodes| && i !in Closure(s.nodes, n) ==> r.nodes[i].promise == s.nodes[i].promise) &&
      (forall i :: 0 <= i < |s.nodes| && s.nodes[i].parent.Some? ==> r.nodes[i].promise == s.nodes[i].promise)
  {
    var r := CancelFrom(s, n, cb);
    CancelCancelsClosure(s, n, cb);
    CancelOnlyTouchesClosure(s, n, cb);
    forall d | d in Closure(s.nodes, n) && s.nodes[d].parent.None?
      ensures r.nodes[d].promise == SettleOnce(s.nodes[d].promise, Rejected(CancelationError))
    {
      assert NodeConsistent(r.nodes, d) && Evolves(s.nodes[d], r.nodes[d]);
    }
    forall i | 0 <= i < |s.nodes| && s.nodes[i].parent.Some?
      ensures r.nodes[i].promise == s.nodes[i].promise
    {
      assert Evolves(s.nodes[i], r.nodes[i]);
    }
  }

  /** `r` differs from `s` at most in the nodes of `area`, and only they got hook calls. */
  ghost predicate OnlyTouches(s: World, r: World, area: set<nat>)
  {
    |r.nodes| == |s.nodes| && s.log <= r.log &&
    (forall i :: 0 <= i < |s.nodes| && i !in area ==> r.nodes[i] == s.nodes[i]) &&
    (forall k :: |s.log| <= k < |r.log| ==> r.log[k].node in area)
  }

  lemma OnlyTouchesCompose(s1: World, s2: World, s3: World, a: set<nat>, b: set<nat>, c: set<nat>)
    requires OnlyTouches(s1, s2, a) && OnlyTouches(s2, s3, b) && a <= c && b <= c
    ensures OnlyTouches(s1, s3, c)
  {
    forall k | |s1.log| <= k < |s3.log| ensures s3.log[k].node in c {
      if k < |s2.log| {
        assert s3.log[k] == s2.log[k];
      }
    }
  }

  lemma {:induction false} CancelFromLocal(s: World, n: nat, cb: Callback)
    requires WellFormed(s.nodes) && n < |s.nodes|
    ensures OnlyTouches(s, CancelFrom(s, n, cb), Closure(s.nodes, n))
    decreases n, 3, 0
  {
    if !s.nodes[n].canceled {
      WalkLocal(s, n, cb);
    }
  }

  lemma {:induction false} WalkLocal(s: World, cur: nat, cb: Callback)
    requires WellFormed(s.nodes) && cur < |s.nodes|
    ensures OnlyTouches(s, Walk(s, cur, cb), Closure(s.nodes, cur))
    decreases cur, 2, 0
  {
    assert LinksBelow(s.nodes[cur], cur);
    var area := Closure(s.nodes, cur);
    var s2 := VisitLocal(s, cur, cb);
    WalkUnfold(s, cur, cb);
    match s.nodes[cur].parent
    case None =>
    case Some(p) =>
      WalkLocal(s2, p, cb);
      ClosureShrinks(s.nodes, s2.nodes, p);
      OnlyTouchesCompose(s, s2, Walk(s2, p, cb), area, Closure(s2.nodes, p), area);
  }

  /** The children block and the visit of `cur` touch only what canceling `cur` reaches. */
  lemma {:induction false} VisitLocal(s: World, cur: nat, cb: Callback) returns (s2: World)
    requires WellFormed(s.nodes) && cur < |s.nodes|
    ensures s2 == Visit(ChildrenDone(s, cur), cur, cb)
    ensures WellFormed(s2.nodes) && NodesEvolve(s.nodes, s2.nodes)
    ensures OnlyTouches(s, s2, Closure(s.nodes, cur))
    decreases cur, 1, 0
  {
    assert LinksBelow(s.nodes[cur], cur);
    var s1 := ChildrenDone(s, cur);
    var down: set<nat> := {};
    if s.nodes[cur].children.Some? {
      ChildrenLocal(s, s.nodes[cur].children.value, cur);
      down := ClosureAll(s.nodes, s.nodes[cur].children.value, cur);
    } else {
      assert OnlyTouches(s, s1, {});
    }
    s2 := Visit(s1, cur, cb);
    assert OnlyTouches(s1, s2, {cur});
    OnlyTouchesCompose(s, s1, s2, down, {cur}, Closure(s.nodes, cur));
    EvolvesTransitive(s.nodes, s1.nodes, s2.nodes);
  }

  lemma {:induction false} ChildrenLocal(s: World, cs: seq<nat>, bound: nat)
    requires WellFormed(s.nodes) && bound <= |s.nodes|
    requires forall c :: c in cs ==> c < bound
    ensures OnlyTouches(s, CancelChildren(s, cs, bound), ClosureAll(s.nodes, cs, bound))
    decreases bound, 0, |cs|
  {
    if cs != [] {
      assert cs[0] in cs;
      assert forall x :: x in cs[1..] ==> x in cs;
      CancelFromLocal(s, cs[0], DefaultNoOp);
      var s1 := CancelFrom(s, cs[0], DefaultNoOp);
      ChildrenLocal(s1, cs[1..], bound);
      ClosureAllShrinks(s.nodes, s1.nodes, cs[1..], bound);
      OnlyTouchesCompose(s, s1, CancelChildren(s1, cs[1..], bound),
        Closure(s.nodes, cs[0]), ClosureAll(s1.nodes, cs[1..], bound), ClosureAll(s.nodes, cs, bound));
    }
  }

  /**
    * Canceling `n` changes no node outside what it reaches (`n`, parent chains, children
    * recursively) and invokes no hook of any other node.
    */
  lemma CancelOnlyTouchesClosure(s: World, n: nat, cb: Callback)
    requires WellFormed(s.nodes) && n < |s.nodes|
    ensures var r := CancelFrom(s, n, cb);
      (forall i :: 0 <= i < |s.nodes| && i !in Closure(s.nodes, n) ==> r.nodes[i] == s.nodes[i]) &&
      (forall k :: |s.log| <= k < |r.log| ==> r.log[k].node in Closure(s.nodes, n))
  {
    CancelFromLocal(s, n, cb);
  }

  /** The invocations in `log` of node `n`'s hook, in order. */
  function CallsOf(log: seq<HookCall>, n: nat): (calls: seq<HookCall>)
    ensures forall k :: 0 <= k < |calls| ==> calls[k].node == n
    ensures forall e :: e in calls <==> e in log && e.node == n
  {
    if log == [] then []
    else (if log[0].node == n then [log[0]] else []) + CallsOf(log[1..], n)
  }

  lemma {:induction false} CallsOfAppend(a: seq<HookCall>, b: seq<HookCall>, n: nat)
    ensures CallsOf(a + b, n) == CallsOf(a, n) + CallsOf(b, n)
  {
    if a == [] {
      assert a + b == b;
    } else {
      assert (a + b)[0] == a[0] && (a + b)[1..] == a[1..] + b;
      CallsOfAppend(a[1..], b, n);
    }
  }

  /** One turn of the walk, unfolded. */
  lemma WalkUnfold(s: World, cur: nat, cb: Callback)
    requires WellFormed(s.nodes) && cur < |s.nodes|
    ensures var s2 := Visit(ChildrenDone(s, cur), cur, cb);
      Walk(s, cur, cb) == match s.nodes[cur].parent
        case None => s2
        case Some(p) => Walk(s2, p, cb)
  {
  }

  lemma {:induction false} NoCallsOf(log: seq<HookCall>, n: nat)
    requires forall k :: 0 <= k < |log| ==> log[k].node != n
    ensures CallsOf(log, n) == []
  {
    if log != [] {
      NoCallsOf(log[1..], n);
    }
  }

  /** The entries a log gained past `a`, when it grew through `b` and then `b + own`. */
  lemma NewEntriesThreeParts(a: seq<HookCall>, b: seq<HookCall>, own: seq<HookCall>, c: seq<HookCall>)
    requires a <= b && b + own <= c
    ensures c[|a|..] == b[|a|..] + own + c[|b + own|..]
  {
    assert c[|a|..] == c[|a|..|b|] + c[|b|..|b + own|] + c[|b + own|..];
  }

  /**
    * The log of a walk from `cur`: the children's invocations (all of lower nodes), then
    * `cur`'s own, then those of the walk further up (all of lower nodes).
    */
  lemma WalkLogShape(s: World, cur: nat, cb: Callback)
    requires WellFormed(s.nodes) && cur < |s.nodes|
    ensures var r := Walk(s, cur, cb);
      var s1 := ChildrenDone(s, cur);
      var mid := s1.log + HookCalls(s.nodes[cur], cur, cb);
      mid <= r.log &&
      forall k :: |mid| <= k < |r.log| ==> r.log[k].node < cur
  {
    WalkUnfold(s, cur, cb);
    assert LinksBelow(s.nodes[cur], cur);
    assert ChildrenDone(s, cur).nodes[cur] == s.nodes[cur];
  }

  /**
    * A non-trivial call of `cancel` on `n` runs `n`'s hook exactly once, with the
    * caller's `cb`, if a callable hook is registered, and not at all otherwise.
    */
  lemma StartHookRunsOnce(s: World, n: nat, cb: Callback)
    requires WellFormed(s.nodes) && n < |s.nodes| && !s.nodes[n].canceled
    ensures var r := CancelFrom(s, n, cb);
      CallsOf(r.log[|s.log|..], n) == HookCalls(s.nodes[n], n, cb)
  {
    var r := CancelFrom(s, n, cb);
    assert r == Walk(s, n, cb);
    WalkLogShape(s, n, cb);
    var s1 := ChildrenDone(s, n);
    var own := HookCalls(s.nodes[n], n, cb);
    NewEntriesThreeParts(s.log, s1.log, own, r.log);
    OwnCallsBetween(s1.log[|s.log|..], own, r.log[|s1.log + own|..], n);
  }

  /** Filtering a log whose middle part is all of node `n`, and whose other parts have none of it. */
  lemma OwnCallsBetween(before: seq<HookCall>, own: seq<HookCall>, after: seq<HookCall>, n: nat)
    requires forall k :: 0 <= k < |before| ==> before[k].node != n
    requires forall k :: 0 <= k < |after| ==> after[k].node != n
    requires |own| <= 1 && forall k :: 0 <= k < |own| ==> own[k].node == n
    ensures CallsOf(before + own + after, n) == own
  {
    NoCallsOf(before, n);
    NoCallsOf(after, n);
    assert CallsOf(own, n) == own by {
      if own != [] {
        assert own[1..] == [];
      }
    }
    CallsOfAppend(before + own, after, n);
    CallsOfAppend(before, own, n);
  }

  /** The walk up from `cur` runs the hook of `cur` and of each node on its parent chain with `cb`. */
  lemma {:induction false} WalkRunsChainHooks(s: World, cur: nat, cb: Callback, a: nat, h: nat)
    requires WellFormed(s.nodes) && cur < |s.nodes| && a < |s.nodes|
    requires AncestorOrSelf(s.nodes, cur, a) && s.nodes[a].onCancel == Some(Callable(h))
    ensures HookCall(a, h, cb) in Walk(s, cur, cb).log[|s.log|..]
    decreases cur
  {
    if a == cur {
      WalkRunsOwnHook(s, cur, cb, h);
    } else {
      var p := s.nodes[cur].parent.value;
      var s2 := WalkStepUp(s, cur, cb);
      AncestryStable(s.nodes, s2.nodes, p, a);
      assert Evolves(s.nodes[a], s2.nodes[a]);
      WalkRunsChainHooks(s2, p, cb, a, h);
      InLaterSuffix(s.log, s2.log, Walk(s, cur, cb).log, HookCall(a, h, cb));
    }
  }

  /** The walk from `cur` runs the hook of `cur` itself. */
  lemma WalkRunsOwnHook(s: World, cur: nat, cb: Callback, h: nat)
    requires WellFormed(s.nodes) && cur < |s.nodes| && s.nodes[cur].onCancel == Some(Callable(h))
    ensures HookCall(cur, h, cb) in Walk(s, cur, cb).log[|s.log|..]
  {
    var r := Walk(s, cur, cb);
    WalkLogShape(s, cur, cb);
    var s1 := ChildrenDone(s, cur);
    assert HookCalls(s.nodes[cur], cur, cb) == [HookCall(cur, h, cb)];
    assert r.log[|s1.log|] == HookCall(cur, h, cb);
    assert r.log[|s.log|..][|s1.log| - |s.log|] == HookCall(cur, h, cb);
  }

  /** An entry past `b` in a log that extends `b`, which extends `a`, is past `a`. */
  lemma InLaterSuffix(a: seq<HookCall>, b: seq<HookCall>, c: seq<HookCall>, e: HookCall)
    requires a <= b && b <= c && e in c[|b|..]
    ensures e in c[|a|..]
  {
    var k :| |b| <= k < |c| && c[k] == e;
    assert c[|a|..][k - |a|] == e;
  }

  /**
    * The world in which the walk from `cur` continues at its parent; the walk from `cur`
    * ends as the walk from the parent does in it.
    */
  lemma WalkStepUp(s: World, cur: nat, cb: Callback) returns (s2: World)
    requires WellFormed(s.nodes) && cur < |s.nodes| && s.nodes[cur].parent.Some?
    ensures s.nodes[cur].parent.value < cur
    ensures WellFormed(s2.nodes) && NodesEvolve(s.nodes, s2.nodes) && s.log <= s2.log
    ensures Walk(s, cur, cb) == Walk(s2, s.nodes[cur].parent.value, cb)
  {
    assert LinksBelow(s.nodes[cur], cur);
    WalkUnfold(s, cur, cb);
    var s1 := ChildrenDone(s, cur);
    s2 := Visit(s1, cur, cb);
    EvolvesTransitive(s.nodes, s1.nodes, s2.nodes);
  }

  /** Every hook the walk up from `cur` runs with an argument other than the default is on `cur`'s chain. */
  lemma {:induction false} WalkOtherCallsAreDefault(s: World, cur: nat, cb: Callback)
    requires WellFormed(s.nodes) && cur < |s.nodes|
    ensures var r := Walk(s, cur, cb);
      forall k :: |s.log| <= k < |r.log| ==>
        r.log[k].arg == DefaultNoOp || AncestorOrSelf(s.nodes, cur, r.log[k].node)
    decreases cur
  {
    var r := Walk(s, cur, cb);
    WalkUnfold(s, cur, cb);
    var s1 := ChildrenDone(s, cur);
    var s2 := Visit(s1, cur, cb);
    assert s2.log <= r.log;
    match s.nodes[cur].parent {
      case None =>
      case Some(p) =>
        assert LinksBelow(s.nodes[cur], cur);
        WalkOtherCallsAreDefault(s2, p, cb);
        forall k | |s2.log| <= k < |r.log| && r.log[k].arg != DefaultNoOp
          ensures AncestorOrSelf(s.nodes, cur, r.log[k].node)
        {
          AncestryStable(s.nodes, s2.nodes, p, r.log[k].node);
        }
    }
  }

  /**
    * The hook invocations of one non-trivial `cancel(cb)` on `n`: `n` and every node on its
    * parent chain that holds a callable hook gets it run with `cb`; a hook invocation with
    * any other argument gets the default no-op, which is what children are canceled with.
    */
  lemma CancelHookArguments(s: World, n: nat, cb: Callback)
    requires WellFormed(s.nodes) && n < |s.nodes| && !s.nodes[n].canceled
    ensures var r := CancelFrom(s, n, cb);
      (forall a, h :: 0 <= a < |s.nodes| && AncestorOrSelf(s.nodes, n, a) && s.nodes[a].onCancel == Some(Callable(h)) ==>
         HookCall(a, h, cb) in r.log[|s.log|..]) &&
      (forall k :: |s.log| <= k < |r.log| ==>
         r.log[k].arg == DefaultNoOp || (r.log[k].arg == cb && AncestorOrSelf(s.nodes, n, r.log[k].node)))
  {
    var r := CancelFrom(s, n, cb);
    assert r == Walk(s, n, cb);
    forall a, h | 0 <= a < |s.nodes| && AncestorOrSelf(s.nodes, n, a) && s.nodes[a].onCancel == Some(Callable(h))
      ensures HookCall(a, h, cb) in r.log[|s.log|..]
    {
      WalkRunsChainHooks(s, n, cb, a, h);
    }
    WalkOtherCallsAreDefault(s, n, cb);
  }

  /** Node `d`'s hook, when it is a function, was logged between `s` and `r`. */
  ghost predicate HookLogged(s: World, r: World, d: nat)
    requires d < |s.nodes|
  {
    s.nodes[d].onCancel.Some? && s.nodes[d].onCancel.value.Callable? ==>
      exists k :: |s.log| <= k < |r.log| && r.log[k].node == d && r.log[k].hook == s.nodes[d].onCancel.value.code
  }

  /** Every node canceled on the way from `s` to `r` had its function hook run. */
  ghost predicate HooksRan(s: World, r: World)
  {
    |r.nodes| == |s.nodes| &&
    forall d :: 0 <= d < |s.nodes| && !s.nodes[d].canceled && r.nodes[d].canceled ==> HookLogged(s, r, d)
  }

  lemma HooksRanCompose(s1: World, s2: World, s3: World)
    requires NodesEvolve(s1.nodes, s2.nodes) && s1.log <= s2.log && s2.log <= s3.log
    requires HooksRan(s1, s2) && HooksRan(s2, s3)
    ensures HooksRan(s1, s3)
  {
    forall d | 0 <= d < |s1.nodes| && !s1.nodes[d].canceled && s3.nodes[d].canceled
      ensures HookLogged(s1, s3, d)
    {
      assert Evolves(s1.nodes[d], s2.nodes[d]);
      if s1.nodes[d].onCancel.Some? && s1.nodes[d].onCancel.value.Callable? {
        var h := s1.nodes[d].onCancel.value.code;
        if s2.nodes[d].canceled {
          assert HookLogged(s1, s2, d);
          var k :| |s1.log| <= k < |s2.log| && s2.log[k].node == d && s2.log[k].hook == h;
          assert s3.log[k] == s2.log[k];
        } else {
          assert HookLogged(s2, s3, d);
          var k :| |s2.log| <= k < |s3.log| && s3.log[k].node == d && s3.log[k].hook == h;
        }
      }
    }
  }

  /** The visit of `cur` runs its hook, the only node it cancels. */
  lemma VisitHooksRan(s: World, cur: nat, cb: Callback)
    requires WellFormed(s.nodes) && cur < |s.nodes|
    requires s.nodes[cur].children.Some? ==>
      forall c :: c in s.nodes[cur].children.value ==> s.nodes[c].canceled
    ensures HooksRan(s, Visit(s, cur, cb))
  {
    var r := Visit(s, cur, cb);
    if s.nodes[cur].onCancel.Some? && s.nodes[cur].onCancel.value.Callable? {
      assert r.log[|s.log|] == HookCall(cur, s.nodes[cur].onCancel.value.code, cb);
      assert HookLogged(s, r, cur);
    }
  }

  lemma {:induction false} CancelFromHooksRan(s: World, n: nat, cb: Callback)
    requires WellFormed(s.nodes) && n < |s.nodes|
    ensures HooksRan(s, CancelFrom(s, n, cb))
    decreases n, 3, 0
  {
    if !s.nodes[n].canceled {
      WalkHooksRan(s, n, cb);
    }
  }

  lemma {:induction false} WalkHooksRan(s: World, cur: nat, cb: Callback)
    requires WellFormed(s.nodes) && cur < |s.nodes|
    ensures HooksRan(s, Walk(s, cur, cb))
    decreases cur, 2, 0
  {
    assert LinksBelow(s.nodes[cur], cur);
    WalkUnfold(s, cur, cb);
    var s1 := ChildrenDone(s, cur);
    if s.nodes[cur].children.Some? {
      ChildrenHooksRan(s, s.nodes[cur].children.value, cur);
    }
    var s2 := Visit(s1, cur, cb);
    VisitHooksRan(s1, cur, cb);
    HooksRanCompose(s, s1, s2);
    EvolvesTransitive(s.nodes, s1.nodes, s2.nodes);
    match s.nodes[cur].parent
    case None =>
    case Some(p) =>
      WalkHooksRan(s2, p, cb);
      HooksRanCompose(s, s2, Walk(s2, p, cb));
  }

  lemma {:induction false} ChildrenHooksRan(s: World, cs: seq<nat>, bound: nat)
    requires WellFormed(s.nodes) && bound <= |s.nodes|
    requires forall c :: c in cs ==> c < bound
    ensures HooksRan(s, CancelChildren(s, cs, bound))
    decreases bound, 0, |cs|
  {
    if cs != [] {
      CancelChildrenStep(s, cs, bound);
      var s1 := CancelFrom(s, cs[0], DefaultNoOp);
      CancelFromHooksRan(s, cs[0], DefaultNoOp);
      ChildrenHooksRan(s1, cs[1..], bound);
      HooksRanCompose(s, s1, CancelChildren(s1, cs[1..], bound));
    }
  }

  /**
    * Canceling a node of a consistent graph runs the function hook of every node it reaches
    * that was not canceled yet: the parent chain, each child through its own `cancel()`,
    * and so on recursively.
    */
  lemma CancelRunsClosureHooks(s: World, n: nat, cb: Callback)
    requires WellFormed(s.nodes) && n < |s.nodes| && ConsistentBelow(s.nodes, n + 1)
    ensures var r := CancelFrom(s, n, cb);
      forall d, h :: d in Closure(s.nodes, n) && !s.nodes[d].canceled && s.nodes[d].onCancel == Some(Callable(h)) ==>
        exists k :: |s.log| <= k < |r.log| && r.log[k].node == d && r.log[k].hook == h
  {
    var r := CancelFrom(s, n, cb);
    CancelCancelsClosure(s, n, cb);
    CancelFromHooksRan(s, n, cb);
    forall d, h | d in Closure(s.nodes, n) && !s.nodes[d].canceled && s.nodes[d].onCancel == Some(Callable(h))
      ensures exists k :: |s.log| <= k < |r.log| && r.log[k].node == d && r.log[k].hook == h
    {
      assert HookLogged(s, r, d);
    }
  }
}
