/**
  * The `Cancelable` class of src/index.js as a mutable arena of all `Cancelable` objects.
  * A reference to a `Cancelable` is its id in `nodes`; the static methods and the
  * instance methods (`this` = node `n`) change the arena in place. `log` records every
  * cancel-hook invocation, in order.
  */
module CancelablePromise {
  import opened Wrappers
  import opened Values
  import opened Graph
  import opened Cancelation

  /** The node, and id, `Cancelable.resolve(v)` yields in an arena. */
  function Resolved(ns: seq<Node>, v: Value): (r: (seq<Node>, nat))
    requires ValueIn(v, |ns|)
    ensures ns <= r.0 && r.1 < |r.0| && |r.0| <= |ns| + 1
    ensures IsCancelable(v) <==> r.1 < |ns|
    ensures IsCancelable(v) ==> r == (ns, v.id)
    ensures !IsCancelable(v) ==> r.0[r.1] == Fresh(Resolving(v))
  {
    if IsCancelable(v) then (ns, v.id) else (ns + [Fresh(Resolving(v))], |ns|)
  }

  /** `resolve(resolve(v))` is `resolve(v)`: the second call returns its argument and adds nothing. */
  lemma ResolveIdempotent(ns: seq<Node>, v: Value)
    requires ValueIn(v, |ns|)
    ensures var (ns1, id) := Resolved(ns, v);
      Resolved(ns1, Cancelable(id)) == (ns1, id)
  {
  }

  class Arena {
    var nodes: seq<Node>
    var log: seq<HookCall>

    ghost predicate Valid()
      reads this
    {
      WellFormed(nodes)
    }

    function Snapshot(): World
      reads this
    {
      World(nodes, log)
    }

    constructor ()
      ensures Valid() && Consistent(nodes) && nodes == [] && log == []
    {
      nodes := [];
      log := [];
    }

    /** A new `Cancelable` with the default field values (src/index.js:20-23). */
    method Allocate(origin: Origin) returns (id: nat)
      requires Valid()
      modifies this
      ensures Valid() && log == old(log)
      ensures id == |old(nodes)| && nodes == old(nodes) + [Fresh(origin)]
      ensures Consistent(old(nodes)) ==> Consistent(nodes)
    {
      id := |nodes|;
      if Consistent(nodes) {
        ConsistentAppend(nodes, Fresh(origin));
      }
      nodes := nodes + [Fresh(origin)];
      assert LinksBelow(nodes[id], id);
      assert forall i :: 0 <= i < id ==> nodes[i] == old(nodes)[i];
    }

    /**
      * `new Cancelable(executor)`: a `TypeError` unless the executor is callable; otherwise
      * a new root node with no children and no hook, not canceled, promise pending.
      */
    method New(executor: Value) returns (r: Result<nat, Error>)
      requires Valid()
      modifies this
      ensures Valid() && log == old(log)
      ensures !executor.Function? ==> r == Err(TypeError) && nodes == old(nodes)
      ensures executor.Function? ==>
        r == Ok(|old(nodes)|) && nodes == old(nodes) + [Fresh(Executor(executor.code))]
      ensures Consistent(old(nodes)) ==> Consistent(nodes)
    {
      if !executor.Function? {
        return Err(TypeError);
      }
      var id := Allocate(Executor(executor.code));
      r := Ok(id);
    }

    /**
      * The executor's third callback: `callback => { this.onCancel = callback; }`. The
      * last registration wins; `None` stands for a falsy argument.
      */
    method RegisterHook(n: nat, hook: Option<Handler>)
      requires Valid() && n < |nodes|
      modifies this
      ensures Valid() && log == old(log)
      ensures nodes == old(nodes)[n := old(nodes)[n].(onCancel := hook)]
      ensures Consistent(old(nodes)) ==> Consistent(nodes)
    {
      if Consistent(nodes) {
        assert NodeConsistent(nodes, n);
        ConsistentUpdate(nodes, n, nodes[n].(onCancel := hook));
      }
      nodes := nodes[n := nodes[n].(onCancel := hook)];
      assert LinksBelow(old(nodes)[n], n);
      assert forall i :: 0 <= i < |nodes| && i != n ==> nodes[i] == old(nodes)[i];
    }

    /**
      * The host settling node `n`'s promise (the executor's `resolve`/`reject` reaching it,
      * or the thenable it adopts settling). A settled promise keeps its outcome.
      */
    method Settle(n: nat, outcome: Settlement)
      requires Valid() && n < |nodes| && !outcome.Pending?
      modifies this
      ensures Valid() && log == old(log)
      ensures nodes == old(nodes)[n := old(nodes)[n].(promise := SettleOnce(old(nodes)[n].promise, outcome))]
      ensures Consistent(old(nodes)) ==> Consistent(nodes)
    {
      if Consistent(nodes) {
        assert NodeConsistent(nodes, n);
        ConsistentUpdate(nodes, n, nodes[n].(promise := SettleOnce(nodes[n].promise, outcome)));
      }
      nodes := nodes[n := nodes[n].(promise := SettleOnce(nodes[n].promise, outcome))];
      assert LinksBelow(old(nodes)[n], n);
      assert forall i :: 0 <= i < |nodes| && i != n ==> nodes[i] == old(nodes)[i];
    }

    /** `Cancelable.resolve(v)`: `v` itself when it is cancelable, otherwise a new root node. */
    method Resolve(v: Value) returns (id: nat)
      requires Valid() && ValueIn(v, |nodes|)
      modifies this
      ensures Valid() && log == old(log)
      ensures (nodes, id) == Resolved(old(nodes), v)
      ensures Consistent(old(nodes)) ==> Consistent(nodes)
    {
      if IsCancelable(v) {
        return v.id;
      }
      id := Allocate(Resolving(v));
    }

    /** `Cancelable.reject(reason)`: `resolve` applied to `Promise.reject(reason)`. */
    method Reject(reason: Reason) returns (id: nat)
      requires Valid()
      modifies this
      ensures Valid() && log == old(log)
      ensures id == |old(nodes)|
      ensures nodes == old(nodes) + [Fresh(Resolving(Thenable(PromiseRejected(reason))))]
      ensures Consistent(old(nodes)) ==> Consistent(nodes)
    {
      id := Resolve(Thenable(PromiseRejected(reason)));
    }

    /**
      * The loop of `all`/`race`: pushes each cancelable input onto the `children` of the
      * new node `id`, creating the list at the first one.
      */
    method CollectChildren(id: nat, inputs: seq<Value>)
      requires Valid() && id == |nodes| - 1
      requires nodes[id].children.None? && !nodes[id].canceled && nodes[id].parent.None?
      requires forall k :: 0 <= k < |inputs| ==> ValueIn(inputs[k], id)
      modifies this
      ensures Valid() && log == old(log)
      ensures nodes == old(nodes)[id := old(nodes)[id].(children := ChildrenOf(inputs))]
      ensures Consistent(old(nodes)) ==> Consistent(nodes)
    {
      var i := 0;
      while i < |inputs|
        invariant 0 <= i <= |inputs|
        invariant |nodes| == |old(nodes)| && log == old(log)
        invariant forall j :: 0 <= j < |nodes| && j != id ==> nodes[j] == old(nodes)[j]
        invariant nodes[id] == old(nodes)[id].(children := ChildrenOf(inputs[..i]))
      {
        CancelableIdsAppend(inputs[..i], [inputs[i]]);
        CancelableIdsSingle(inputs[i]);
        assert inputs[..i + 1] == inputs[..i] + [inputs[i]];
        ghost var ids := CancelableIds(inputs[..i]);
        assert CancelableIds(inputs[..i + 1]) == ids + if IsCancelable(inputs[i]) then [inputs[i].id] else [];
        assert ChildrenOf(inputs[..i]) == if ids == [] then None else Some(ids);
        if IsCancelable(inputs[i]) {
          if nodes[id].children.Some? {
            assert nodes[id].children.value == ids;
            nodes := nodes[id := nodes[id].(children := Some(nodes[id].children.value + [inputs[i].id]))];
          } else {
            assert ids == [];
            assert ids + [inputs[i].id] == [inputs[i].id];
            nodes := nodes[id := nodes[id].(children := Some([inputs[i].id]))];
          }
          assert nodes[id].children == Some(CancelableIds(inputs[..i + 1]));
        } else {
          assert CancelableIds(inputs[..i + 1]) == ids;
        }
        assert nodes[id].children == ChildrenOf(inputs[..i + 1]);
        i := i + 1;
      }
      assert inputs[..i] == inputs;
      assert nodes == old(nodes)[id := old(nodes)[id].(children := ChildrenOf(inputs))];
      if Consistent(old(nodes)) {
        ConsistentUpdate(old(nodes), id, nodes[id]);
      }
      assert LinksBelow(nodes[id], id) by {
        forall c | c in CancelableIds(inputs) ensures c < id {
          var k :| 0 <= k < |inputs| && inputs[k] == Cancelable(c);
          assert ValueIn(inputs[k], id);
        }
      }
      assert forall i :: 0 <= i < id ==> nodes[i] == old(nodes)[i];
    }

    /**
      * `Cancelable.all(iterable)`: a new root node wrapping `Promise.all(iterable)` whose
      * `children` are the cancelable inputs in order (`null` if there are none).
      */
    method All(inputs: seq<Value>) returns (id: nat)
      requires Valid() && forall k :: 0 <= k < |inputs| ==> ValueIn(inputs[k], |nodes|)
      modifies this
      ensures Valid() && log == old(log)
      ensures id == |old(nodes)|
      ensures nodes == old(nodes) + [Fresh(Resolving(Thenable(PromiseAll(inputs)))).(children := ChildrenOf(inputs))]
      ensures Consistent(old(nodes)) ==> Consistent(nodes)
    {
      id := Resolve(Thenable(PromiseAll(inputs)));
      CollectChildren(id, inputs);
    }

    /** `Cancelable.race(promises)`: as `all`, around `Promise.race(promises)`. */
    method Race(inputs: seq<Value>) returns (id: nat)
      requires Valid() && forall k :: 0 <= k < |inputs| ==> ValueIn(inputs[k], |nodes|)
      modifies this
      ensures Valid() && log == old(log)
      ensures id == |old(nodes)|
      ensures nodes == old(nodes) + [Fresh(Resolving(Thenable(PromiseRace(inputs)))).(children := ChildrenOf(inputs))]
      ensures Consistent(old(nodes)) ==> Consistent(nodes)
    {
      id := Resolve(Thenable(PromiseRace(inputs)));
      CollectChildren(id, inputs);
    }

    /**
      * `then`/`catch` on node `n`: `resolve` of the chained native promise, whose `parent`
      * is then set to `n`. No existing node changes.
      */
    method Derive(n: nat, chained: Native) returns (id: nat)
      requires Valid() && n < |nodes|
      modifies this
      ensures Valid() && log == old(log)
      ensures id == |old(nodes)|
      ensures nodes == old(nodes) + [Fresh(Resolving(Thenable(chained))).(parent := Some(n))]
      ensures Consistent(old(nodes)) ==> Consistent(nodes)
    {
      id := Resolve(Thenable(chained));
      ghost var mid := nodes;
      nodes := nodes[id := nodes[id].(parent := Some(n))];
      assert nodes == old(nodes) + [Fresh(Resolving(Thenable(chained))).(parent := Some(n))];
      if Consistent(old(nodes)) {
        ConsistentAppend(old(nodes), nodes[id]);
      }
      assert LinksBelow(nodes[id], id);
      assert forall i :: 0 <= i < id ==> nodes[i] == old(nodes)[i];
    }

    /** `this.then(...args)`. */
    method Then(n: nat, args: seq<Value>) returns (id: nat)
      requires Valid() && n < |nodes|
      modifies this
      ensures Valid() && log == old(log)
      ensures id == |old(nodes)|
      ensures nodes == old(nodes) + [Fresh(Resolving(Thenable(PromiseThen(n, args)))).(parent := Some(n))]
      ensures Consistent(old(nodes)) ==> Consistent(nodes)
    {
      id := Derive(n, PromiseThen(n, args));
    }

    /** `this.catch(...args)`. */
    method Catch(n: nat, args: seq<Value>) returns (id: nat)
      requires Valid() && n < |nodes|
      modifies this
      ensures Valid() && log == old(log)
      ensures id == |old(nodes)|
      ensures nodes == old(nodes) + [Fresh(Resolving(Thenable(PromiseCatch(n, args)))).(parent := Some(n))]
      ensures Consistent(old(nodes)) ==> Consistent(nodes)
    {
      id := Derive(n, PromiseCatch(n, args));
    }

    /** `this.isCanceled()`. */
    function IsCanceled(n: nat): bool
      reads this
      requires n < |nodes|
    {
      nodes[n].canceled
    }

    /** `this.setCanceled()`. */
    method SetCanceled(n: nat)
      requires Valid() && n < |nodes|
      modifies this
      ensures Valid() && log == old(log)
      ensures nodes == old(nodes)[n := old(nodes)[n].(canceled := true)]
    {
      nodes := nodes[n := nodes[n].(canceled := true)];
      assert LinksBelow(old(nodes)[n], n);
      assert forall i :: 0 <= i < |nodes| && i != n ==> nodes[i] == old(nodes)[i];
    }

    /**
      * `this.cancel(cb)` on node `n`: nothing if `n` is already canceled; otherwise walks
      * from `n` up the `parent` chain, at each node canceling the children (recursively,
      * with the default callback) and clearing them, marking the node canceled, running its
      * hook with `cb`, and force-rejecting its promise if it has no parent.
      */
    method Cancel(n: nat, cb: Callback)
      requires Valid() && n < |nodes|
      modifies this
      ensures Valid()
      ensures Snapshot() == CancelFrom(old(Snapshot()), n, cb)
      ensures Consistent(old(nodes)) ==> Consistent(nodes)
      ensures ConsistentBelow(old(nodes), n + 1) ==>
        forall d :: d in Closure(old(nodes), n) ==> nodes[d].canceled && nodes[d].children.None?
      decreases n, 1
    {
      CancelKeepsConsistent(Snapshot(), n, cb);
      if IsCanceled(n) {
        return;
      }
      ghost var target := CancelFrom(Snapshot(), n, cb);
      var current: Option<nat> := Some(n);
      while current.Some?
        invariant Valid()
        invariant current.Some? ==>
          current.value <= n && current.value < |nodes| && Walk(Snapshot(), current.value, cb) == target
        invariant current.None? ==> Snapshot() == target
        decreases if current.Some? then current.value + 1 else 0
      {
        var cur := current.value;
        ghost var s0 := Snapshot();
        ReleaseChildren(cur);
        ghost var s1 := ChildrenDone(s0, cur);
        VisitAfterClearing(s1, cur, cb);
        VisitNode(cur, cb);
        assert Snapshot() == Visit(s1, cur, cb);
        WalkUnfold(s0, cur, cb);
        assert LinksBelow(s0.nodes[cur], cur);
        current := nodes[cur].parent;
      }
    }

    /**
      * The `if (current.children)` block of `cancel`: cancels each child in order with the
      * default callback, then sets `children` to `null`.
      */
    method ReleaseChildren(cur: nat)
      requires Valid() && cur < |nodes|
      modifies this
      ensures Valid()
      ensures var s1 := ChildrenDone(old(Snapshot()), cur);
        Snapshot() == World(s1.nodes[cur := s1.nodes[cur].(children := None)], s1.log)
      decreases cur, 0
    {
      ghost var s0 := Snapshot();
      assert LinksBelow(nodes[cur], cur);
      if nodes[cur].children.Some? {
        var children := nodes[cur].children.value;
        ghost var s1 := CancelChildren(s0, children, cur);
        var i := 0;
        while i < |children|
          invariant 0 <= i <= |children|
          invariant Valid() && |nodes| == |s0.nodes|
          invariant forall c :: c in children[i..] ==> c < cur
          invariant CancelChildren(Snapshot(), children[i..], cur) == s1
        {
          // `Cancelable.isCancelable(child)` holds: `children` only ever holds cancelables.
          CancelChildrenStep(Snapshot(), children[i..], cur);
          assert children[i..][0] == children[i] && children[i..][1..] == children[i + 1..];
          Cancel(children[i], DefaultNoOp);
          i := i + 1;
        }
        assert children[i..] == [];
        assert Snapshot() == s1;
        nodes := nodes[cur := nodes[cur].(children := None)];
        assert LinksBelow(s1.nodes[cur], cur);
        assert forall j :: 0 <= j < |nodes| && j != cur ==> nodes[j] == s1.nodes[j];
      } else {
        assert nodes[cur].(children := None) == nodes[cur];
        assert nodes[cur := nodes[cur]] == nodes;
      }
    }

    /**
      * The rest of one turn of `cancel` at node `cur`: `setCanceled`, the hook call with
      * `cb` if a callable hook is registered, and `_reject(new CancelationError())` if
      * `cur` has no parent.
      */
    method VisitNode(cur: nat, cb: Callback)
      requires Valid() && cur < |nodes| && nodes[cur].children.None?
      modifies this
      ensures Valid()
      ensures Snapshot() == Visit(old(Snapshot()), cur, cb)
    {
      SetCanceled(cur);
      var node := nodes[cur];
      if node.onCancel.Some? && node.onCancel.value.Callable? {
        log := log + [HookCall(cur, node.onCancel.value.code, cb)];
      }
      if node.parent.None? {
        nodes := nodes[cur := node.(promise := SettleOnce(node.promise, Rejected(CancelationError)))];
      }
      assert nodes == old(nodes)[cur := Visit(old(Snapshot()), cur, cb).nodes[cur]];
    }
  }
}
