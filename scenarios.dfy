/**
  * Clients of the model that replay the behaviour __test__/promise-cancelable.test.js
  * checks, with the assertions the model lets a caller prove.
  */
module Scenarios {
  import opened Wrappers
  import opened Values
  import opened Graph
  import opened Cancelation
  import opened CancelablePromise

  /** The constructor refuses a non-callable executor and otherwise starts from the defaults. */
  method ConstructorDefaults() {
    var arena := new Arena();
    var bad := arena.New(Undefined);
    assert bad == Err(TypeError) && arena.nodes == [];
    var ok := arena.New(Function(0));
    assert ok == Ok(0);
    assert !arena.IsCanceled(0) && arena.nodes[0].children.None?;
    assert arena.nodes[0].onCancel.None? && arena.nodes[0].parent.None?;
  }

  /** `resolve` hands back a cancelable unchanged, and `isCancelable` tells values apart. */
  method ResolveReturnsTheGivenCancelable() {
    var arena := new Arena();
    var c := arena.Resolve(Undefined);
    var again := arena.Resolve(Cancelable(c));
    assert again == c && |arena.nodes| == 1;
    assert !IsCancelable(Undefined) && !IsCancelable(Plain(0)) && IsCancelable(Cancelable(c));
  }

  /** The filter over the inputs the test passes to `all` and `race`. */
  lemma MixedInputsIds(c1: nat, c2: nat)
    ensures CancelableIds([Cancelable(c1), Plain(1), Cancelable(c2), Plain(2), Plain(3)]) == [c1, c2]
  {
    var tail := [Plain(2), Plain(3)];
    assert CancelableIds(tail) == [] by {
      assert tail[1..] == [Plain(3)] && [Plain(3)][1..] == [];
    }
    assert CancelableIds([Cancelable(c2)] + tail) == [c2] by {
      assert ([Cancelable(c2)] + tail)[1..] == tail;
    }
    assert CancelableIds([Plain(1), Cancelable(c2)] + tail) == [c2] by {
      assert ([Plain(1), Cancelable(c2)] + tail)[1..] == [Cancelable(c2)] + tail;
    }
    assert CancelableIds([Cancelable(c1), Plain(1), Cancelable(c2)] + tail) == [c1, c2] by {
      assert ([Cancelable(c1), Plain(1), Cancelable(c2)] + tail)[1..] == [Plain(1), Cancelable(c2)] + tail;
    }
    assert [Cancelable(c1), Plain(1), Cancelable(c2)] + tail == [Cancelable(c1), Plain(1), Cancelable(c2), Plain(2), Plain(3)];
  }

  /** `all` and `race` keep the cancelable inputs, in order, as `children`. */
  method StoresTheCancelables() {
    var arena := new Arena();
    var c1 := arena.Resolve(Undefined);
    var c2 := arena.Resolve(Undefined);
    var inputs := [Cancelable(c1), Plain(1), Cancelable(c2), Plain(2), Plain(3)];
    MixedInputsIds(c1, c2);
    var all := arena.All(inputs);
    assert arena.nodes[all].children == Some([c1, c2]);
    var race := arena.Race(inputs);
    assert arena.nodes[race].children == Some([c1, c2]);
  }

  /** Without a cancelable input, `all` leaves `children` null. */
  method NoCancelableInputs() {
    var arena := new Arena();
    var none := arena.All([Plain(1), Plain(2)]);
    ChildrenOfNull([Plain(1), Plain(2)]);
    assert arena.nodes[none].children.None?;
  }

  /** Canceling the result of `all` clears its children and cancels them and itself. */
  method CancelsAllTheGivenCancelables() {
    var arena := new Arena();
    var c1 := arena.Resolve(Undefined);
    var c2 := arena.Resolve(Undefined);
    var all := arena.All([Cancelable(c1), Cancelable(c2)]);
    assert CancelableIds([Cancelable(c1), Cancelable(c2)]) == [c1, c2] by {
      assert [Cancelable(c1), Cancelable(c2)][1..] == [Cancelable(c2)];
      assert [Cancelable(c2)][1..] == [];
    }
    assert !arena.IsCanceled(all) && !arena.IsCanceled(c1) && !arena.IsCanceled(c2);
    ghost var before := arena.nodes;
    assert c1 in Closure(before, all) && c2 in Closure(before, all) by {
      assert before[all].children == Some([c1, c2]);
      ClosureAllContains(before, [c1, c2], all, c1);
      ClosureAllContains(before, [c1, c2], all, c2);
    }
    arena.Cancel(all, DefaultNoOp);
    assert arena.nodes[all].children.None?;
    assert arena.IsCanceled(all) && arena.IsCanceled(c1) && arena.IsCanceled(c2);
  }

  /** Canceling the end of a `then` chain cancels the chain and rejects the root's promise. */
  method CancelingAChainRejectsTheRoot() {
    var arena := new Arena();
    var root := arena.Resolve(Plain(1));
    var first := arena.Then(root, []);
    var second := arena.Then(first, []);
    ghost var before := arena.Snapshot();
    assert root in Closure(before.nodes, second) && first in Closure(before.nodes, second);
    arena.Cancel(second, DefaultNoOp);
    assert arena.IsCanceled(root) && arena.IsCanceled(first) && arena.IsCanceled(second);
    CancelRejectsRoots(before, second, DefaultNoOp);
    assert arena.nodes[root].promise == Rejected(CancelationError);
    assert arena.nodes[first].promise == Pending;
  }

  /** A hook registered by the executor runs once when its `Cancelable` is canceled. */
  method HookRunsOnce() {
    var arena := new Arena();
    var made := arena.New(Function(0));
    var id := made.value;
    arena.RegisterHook(id, Some(Callable(7)));
    ghost var before := arena.Snapshot();
    arena.Cancel(id, Supplied(3));
    StartHookRunsOnce(before, id, Supplied(3));
    assert CallsOf(arena.log, id) == [HookCall(id, 7, Supplied(3))];
    ghost var after := arena.Snapshot();
    arena.Cancel(id, Supplied(4));
    assert arena.Snapshot() == after;
  }

  /**
    * Two `then`s of one root, combined by `all`: node 0 is the root with a hook, nodes 1
    * and 2 derive from it, node 3 holds both as children.
    */
  function Diamond(): (s: World)
    ensures WellFormed(s.nodes) && |s.nodes| == 4 && s.log == []
    ensures !s.nodes[1].canceled && !s.nodes[2].canceled && !s.nodes[3].canceled
    ensures s.nodes[0].onCancel == Some(Callable(7))
    ensures s.nodes[1].parent == Some(0) && s.nodes[2].parent == Some(0)
    ensures s.nodes[3].children == Some([1, 2])
  {
    var s := World([Fresh(Executor(0)).(onCancel := Some(Callable(7))),
                    Fresh(Resolving(Undefined)).(parent := Some(0)),
                    Fresh(Resolving(Undefined)).(parent := Some(0)),
                    Fresh(Resolving(Undefined)).(children := Some([1, 2]))], []);
    assert forall i :: 0 <= i < |s.nodes| ==> LinksBelow(s.nodes[i], i) by {
      assert LinksBelow(s.nodes[3], 3);
    }
    s
  }

  /** Canceling a node with children `[c1, c2]` first cancels `c1`, then `c2`, with the default callback. */
  lemma TwoChildrenFirst(s: World, n: nat, c1: nat, c2: nat, cb: Callback)
    requires WellFormed(s.nodes) && n < |s.nodes| && !s.nodes[n].canceled
    requires s.nodes[n].children == Some([c1, c2])
    ensures c1 < n && c2 < n
    ensures CancelFrom(CancelFrom(s, c1, DefaultNoOp), c2, DefaultNoOp).log <= CancelFrom(s, n, cb).log
  {
    assert LinksBelow(s.nodes[n], n);
    assert c1 in [c1, c2] && c2 in [c1, c2];
    WalkLogShape(s, n, cb);
    assert ChildrenDone(s, n) == CancelChildren(s, [c1, c2], n);
    CancelChildrenStep(s, [c1, c2], n);
    var sb := CancelFrom(s, c1, DefaultNoOp);
    assert [c1, c2][1..] == [c2];
    CancelChildrenStep(sb, [c2], n);
    assert [c2][1..] == [];
  }

  /** Canceling `c` runs the hook of its parent `a`. */
  lemma ParentHookRuns(s: World, c: nat, a: nat, h: nat)
    requires WellFormed(s.nodes) && c < |s.nodes| && !s.nodes[c].canceled
    requires s.nodes[c].parent == Some(a) && s.nodes[a].onCancel == Some(Callable(h))
    ensures HookCall(a, h, DefaultNoOp) in CancelFrom(s, c, DefaultNoOp).log[|s.log|..]
  {
    assert LinksBelow(s.nodes[c], c);
    assert AncestorOrSelf(s.nodes, a, a);
    assert AncestorOrSelf(s.nodes, c, a);
    CancelHookArguments(s, c, DefaultNoOp);
  }

  /**
    * A hook shared by two children's ancestor chains runs once per chain: canceling a node
    * whose two children both derive from `a` logs the hook of `a` twice.
    */
  lemma SharedAncestorHookRunsTwice(s: World, n: nat, c1: nat, c2: nat, a: nat, h: nat)
    requires WellFormed(s.nodes) && n < |s.nodes| && !s.nodes[n].canceled
    requires s.nodes[n].children == Some([c1, c2]) && c1 < c2 < n
    requires !s.nodes[c1].canceled && !s.nodes[c2].canceled
    requires s.nodes[c1].parent == Some(a) && s.nodes[c2].parent == Some(a)
    requires s.nodes[a].onCancel == Some(Callable(h))
    ensures var r := CancelFrom(s, n, DefaultNoOp);
      exists i, j :: 0 <= i < j < |r.log| && r.log[i] == r.log[j] == HookCall(a, h, DefaultNoOp)
  {
    TwoChildrenFirst(s, n, c1, c2, DefaultNoOp);
    var r := CancelFrom(s, n, DefaultNoOp);
    var sb := CancelFrom(s, c1, DefaultNoOp);
    var sc := CancelFrom(sb, c2, DefaultNoOp);
    ParentHookRuns(s, c1, a, h);
    var i :| |s.log| <= i < |sb.log| && sb.log[i] == HookCall(a, h, DefaultNoOp);
    assert sb.nodes[c2] == s.nodes[c2];
    assert Evolves(s.nodes[a], sb.nodes[a]);
    ParentHookRuns(sb, c2, a, h);
    var j :| |sb.log| <= j < |sc.log| && sc.log[j] == HookCall(a, h, DefaultNoOp);
    assert r.log[i] == sc.log[i] == sb.log[i];
  }

  /** The concrete diamond: canceling node 3 logs the root's hook twice. */
  lemma DiamondHookRunsTwice()
    ensures var r := CancelFrom(Diamond(), 3, DefaultNoOp);
      exists i, j :: 0 <= i < j < |r.log| && r.log[i] == r.log[j] == HookCall(0, 7, DefaultNoOp)
  {
    var s := Diamond();
    SharedAncestorHookRunsTwice(s, 3, 1, 2, 0, 7);
  }
}
