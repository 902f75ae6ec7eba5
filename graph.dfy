/**
  * The graph of `Cancelable` objects. Every object is a node in an arena and is named by
  * its position; the fields are those of the class in src/index.js (`canceled`,
  * `children`, `onCancel`, `parent`), plus the settle-once cell standing for the wrapped
  * promise and a description of what that promise adopts.
  */
module Graph {
  import opened Wrappers
  import opened Values

  /** What the wrapped promise of a node was made from. */
  datatype Origin =
    | Executor(code: nat)       // `new Cancelable(executor)`
    | Resolving(value: Value)   // `new Cancelable(resolve => resolve(value))`, made by `resolve`

  datatype Node = Node(
    canceled: bool,
    children: Option<seq<nat>>,
    parent: Option<nat>,
    onCancel: Option<Handler>,
    promise: Settlement,
    origin: Origin)

  /** The field defaults a freshly constructed `Cancelable` starts with. */
  function Fresh(origin: Origin): (nd: Node)
    ensures !nd.canceled && nd.children.None? && nd.parent.None? && nd.onCancel.None?
    ensures nd.promise.Pending? && nd.origin == origin
  {
    Node(false, None, None, None, Pending, origin)
  }

  /** A node only refers to nodes created before it. */
  predicate LinksBelow(nd: Node, id: nat)
  {
    (nd.parent.Some? ==> nd.parent.value < id) &&
    (nd.children.Some? ==> forall c :: c in nd.children.value ==> c < id)
  }

  predicate WellFormed(ns: seq<Node>)
  {
    forall i :: 0 <= i < |ns| ==> LinksBelow(ns[i], i)
  }

  /** A value refers to an existing node, if it refers to one at all. */
  predicate ValueIn(v: Value, size: nat)
  {
    v.Cancelable? ==> v.id < size
  }

  /**
    * What cancelation leaves behind at a node: a canceled node holds no children, its
    * parent is canceled too, and, if it is a root, its promise is settled.
    */
  ghost predicate NodeConsistent(ns: seq<Node>, i: nat)
    requires i < |ns|
  {
    var nd := ns[i];
    nd.canceled ==>
      nd.children.None? &&
      (nd.parent.Some? ==> nd.parent.value < |ns| && ns[nd.parent.value].canceled) &&
      (nd.parent.None? ==> !nd.promise.Pending?)
  }

  ghost predicate ConsistentBelow(ns: seq<Node>, bound: nat)
  {
    forall i :: 0 <= i < bound && i < |ns| ==> NodeConsistent(ns, i)
  }

  ghost predicate Consistent(ns: seq<Node>)
  {
    ConsistentBelow(ns, |ns|)
  }

  /**
    * The nodes canceling `n` must reach: `n`, its parent chain, and, through `children`
    * recursively, every child together with the child's own parent chain and children.
    */
  ghost function Closure(ns: seq<Node>, n: nat): (c: set<nat>)
    requires WellFormed(ns) && n < |ns|
    ensures n in c
    ensures forall d :: d in c ==> d <= n
    decreases n, 1, 0
  {
    var up := match ns[n].parent
      case Some(p) => Closure(ns, p)
      case None => {};
    var down := match ns[n].children
      case Some(cs) => ClosureAll(ns, cs, n)
      case None => {};
    {n} + up + down
  }

  ghost function ClosureAll(ns: seq<Node>, cs: seq<nat>, bound: nat): (c: set<nat>)
    requires WellFormed(ns) && bound <= |ns|
    requires forall x :: x in cs ==> x < bound
    ensures forall d :: d in c ==> d < bound
    ensures forall x :: x in cs ==> x in c
    decreases bound, 0, |cs|
  {
    if cs == [] then {}
    else
      assert cs[0] in cs;
      assert forall x :: x in cs[1..] ==> x in cs;
      Closure(ns, cs[0]) + ClosureAll(ns, cs[1..], bound)
  }

  /** `a` is `x` or one of the nodes on `x`'s parent chain. */
  ghost predicate AncestorOrSelf(ns: seq<Node>, x: nat, a: nat)
    requires WellFormed(ns) && x < |ns|
    decreases x
  {
    a == x || (ns[x].parent.Some? && AncestorOrSelf(ns, ns[x].parent.value, a))
  }

  /**
    * How one cancelation may change a node: `canceled` only goes from false to true,
    * `children` can only be cleared, the promise can only be force-rejected while it is
    * pending and only at a root, and nothing else changes.
    */
  predicate Evolves(a: Node, b: Node)
  {
    b.parent == a.parent && b.onCancel == a.onCancel && b.origin == a.origin &&
    (a.canceled ==> b.canceled) &&
    (b.children == a.children || b.children.None?) &&
    (b.promise == a.promise ||
     (a.promise.Pending? && a.parent.None? && b.promise == Rejected(CancelationError)))
  }

  /**
    * `after` arises from `before` by cancelation steps: every node evolves, and a node
    * whose children were cleared is canceled, as are the children it held.
    */
  predicate NodesEvolve(before: seq<Node>, after: seq<Node>)
  {
    |after| == |before| &&
    (forall i :: 0 <= i < |before| ==> Evolves(before[i], after[i])) &&
    (forall i :: 0 <= i < |before| && after[i].children != before[i].children ==>
       after[i].canceled &&
       forall c :: c in before[i].children.value ==> c < |after| && after[c].canceled)
  }

  lemma EvolvesKeepsWellFormed(before: seq<Node>, after: seq<Node>)
    requires WellFormed(before) && NodesEvolve(before, after)
    ensures WellFormed(after)
  {
    forall i | 0 <= i < |after| ensures LinksBelow(after[i], i) {
      assert LinksBelow(before[i], i);
      assert Evolves(before[i], after[i]);
    }
  }

  lemma EvolvesTransitive(s1: seq<Node>, s2: seq<Node>, s3: seq<Node>)
    requires NodesEvolve(s1, s2) && NodesEvolve(s2, s3)
    ensures NodesEvolve(s1, s3)
  {
    forall i | 0 <= i < |s1| ensures Evolves(s1[i], s3[i]) {
      assert Evolves(s1[i], s2[i]) && Evolves(s2[i], s3[i]);
    }
    forall i | 0 <= i < |s1| && s3[i].children != s1[i].children
      ensures s3[i].canceled
      ensures forall c :: c in s1[i].children.value ==> c < |s3| && s3[c].canceled
    {
      assert Evolves(s1[i], s2[i]) && Evolves(s2[i], s3[i]);
      if s2[i].children != s1[i].children {
        forall c | c in s1[i].children.value ensures c < |s3| && s3[c].canceled {
          assert Evolves(s2[c], s3[c]);
        }
      }
    }
  }

  /** Cancelation never changes `parent`, so the parent chains stay what they were. */
  lemma {:induction false} AncestryStable(before: seq<Node>, after: seq<Node>, x: nat, a: nat)
    requires WellFormed(before) && WellFormed(after) && NodesEvolve(before, after) && x < |before|
    ensures AncestorOrSelf(after, x, a) == AncestorOrSelf(before, x, a)
    decreases x
  {
    assert Evolves(before[x], after[x]);
    assert LinksBelow(before[x], x);
    if before[x].parent.Some? {
      AncestryStable(before, after, before[x].parent.value, a);
    }
  }

  /** Clearing `children` can only shrink what canceling a node reaches. */
  lemma {:induction false} ClosureShrinks(before: seq<Node>, after: seq<Node>, x: nat)
    requires WellFormed(before) && WellFormed(after) && NodesEvolve(before, after) && x < |before|
    ensures Closure(after, x) <= Closure(before, x)
    decreases x, 1, 0
  {
    assert Evolves(before[x], after[x]);
    assert LinksBelow(before[x], x);
    if before[x].parent.Some? {
      ClosureShrinks(before, after, before[x].parent.value);
    }
    if after[x].children.Some? {
      ClosureAllShrinks(before, after, after[x].children.value, x);
    }
  }

  lemma {:induction false} ClosureAllShrinks(before: seq<Node>, after: seq<Node>, cs: seq<nat>, bound: nat)
    requires WellFormed(before) && WellFormed(after) && NodesEvolve(before, after) && bound <= |before|
    requires forall c :: c in cs ==> c < bound
    ensures ClosureAll(after, cs, bound) <= ClosureAll(before, cs, bound)
    decreases bound, 0, |cs|
  {
    if cs != [] {
      assert cs[0] in cs;
      assert forall c :: c in cs[1..] ==> c in cs;
      ClosureShrinks(before, after, cs[0]);
      ClosureAllShrinks(before, after, cs[1..], bound);
    }
  }

  /** What canceling a child reaches is part of what canceling its holder reaches. */
  lemma {:induction false} ClosureAllContains(ns: seq<Node>, cs: seq<nat>, bound: nat, c: nat)
    requires WellFormed(ns) && bound <= |ns|
    requires forall x :: x in cs ==> x < bound
    requires c in cs
    ensures Closure(ns, c) <= ClosureAll(ns, cs, bound)
    decreases |cs|
  {
    assert forall x :: x in cs[1..] ==> x in cs;
    if cs[0] != c {
      ClosureAllContains(ns, cs[1..], bound, c);
    }
  }

  /** Everything `ClosureAll` reaches is reached from one of the children it starts from. */
  lemma {:induction false} ClosureAllMember(ns: seq<Node>, cs: seq<nat>, bound: nat, d: nat) returns (c: nat)
    requires WellFormed(ns) && bound <= |ns|
    requires forall x :: x in cs ==> x < bound
    requires d in ClosureAll(ns, cs, bound)
    ensures c in cs && c < bound && d in Closure(ns, c)
    decreases |cs|
  {
    assert cs[0] in cs;
    assert forall x :: x in cs[1..] ==> x in cs;
    if d in Closure(ns, cs[0]) {
      c := cs[0];
    } else {
      c := ClosureAllMember(ns, cs[1..], bound, d);
    }
  }

  /**
    * The closure is what canceling `n` reaches: with every node it holds, it holds that
    * node's parent and all of that node's children.
    */
  lemma {:induction false} ClosureClosed(ns: seq<Node>, n: nat, d: nat)
    requires WellFormed(ns) && n < |ns| && d in Closure(ns, n)
    ensures d <= n
    ensures ns[d].parent.Some? ==> ns[d].parent.value in Closure(ns, n)
    ensures ns[d].children.Some? ==> forall x :: x in ns[d].children.value ==> x in Closure(ns, n)
    decreases n
  {
    assert LinksBelow(ns[n], n);
    if d == n {
    } else if ns[n].parent.Some? && d in Closure(ns, ns[n].parent.value) {
      ClosureClosed(ns, ns[n].parent.value, d);
    } else {
      var cs := ns[n].children.value;
      var c := ClosureAllMember(ns, cs, n, d);
      ClosureClosed(ns, c, d);
      ClosureAllContains(ns, cs, n, c);
    }
  }

  /** Replacing a node by one with the same `canceled` and `parent` that is itself consistent. */
  lemma ConsistentUpdate(ns: seq<Node>, n: nat, nd: Node)
    requires n < |ns| && Consistent(ns)
    requires nd.canceled == ns[n].canceled && nd.parent == ns[n].parent
    requires nd.canceled ==> nd.children.None? && (nd.parent.None? ==> !nd.promise.Pending?)
    ensures Consistent(ns[n := nd])
  {
    var ns' := ns[n := nd];
    forall i | 0 <= i < |ns'| ensures NodeConsistent(ns', i) {
      assert NodeConsistent(ns, i);
      if ns'[i].canceled && ns'[i].parent.Some? {
        var p := ns'[i].parent.value;
        assert ns[i].parent == ns'[i].parent && ns[i].canceled;
        assert p < |ns| && ns[p].canceled;
        assert ns'[p].canceled;
      }
    }
  }

  /** Adding a node that is not canceled. */
  lemma ConsistentAppend(ns: seq<Node>, nd: Node)
    requires Consistent(ns) && !nd.canceled
    ensures Consistent(ns + [nd])
  {
    var ns' := ns + [nd];
    forall i | 0 <= i < |ns'| ensures NodeConsistent(ns', i) {
      if i < |ns| {
        assert ns'[i] == ns[i] && NodeConsistent(ns, i);
        if ns[i].canceled && ns[i].parent.Some? {
          assert ns'[ns[i].parent.value] == ns[ns[i].parent.value];
        }
      }
    }
  }
}
