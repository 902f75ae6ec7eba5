/**
  * The values a `Cancelable` meets at its boundary: what `resolve`, `all` and `race` are
  * given, what a wrapped native promise settles with, the cancel hooks and the arguments
  * those hooks receive.
  *
  * The source recognises a `Cancelable` at run time by a non-writable tag property
  * (`@@Cancelable`); here the tag is the constructor `Cancelable` of `Value`.
  */
module Values {
  import opened Wrappers

  /** A native promise, described by how it was made; its eventual outcome belongs to the host. */
  datatype Native =
    | PromiseAll(inputs: seq<Value>)           // `Promise.all(iterable)`
    | PromiseRace(inputs: seq<Value>)          // `Promise.race(promises)`
    | PromiseRejected(reason: Reason)          // `Promise.reject(reason)`
    | PromiseThen(source: nat, args: seq<Value>)   // `this.promise.then(...args)`
    | PromiseCatch(source: nat, args: seq<Value>)  // `this.promise.catch(...args)`
    | Foreign(token: nat)                      // any other thenable handed in by a caller

  /** A JavaScript value as far as this component can tell values apart. */
  datatype Value =
    | Undefined                                // also `null` and the other falsy values
    | Plain(payload: nat)                      // a non-thenable, non-callable value
    | Function(code: nat)                      // a callable value
    | Thenable(native: Native)                 // a native promise or other thenable
    | Cancelable(id: nat)                      // a value carrying the cancelable tag

  /** The reason a promise is rejected with. */
  datatype Reason =
    | CancelationError                         // the error `cancel` forces onto a root
    | Thrown(payload: Value)                   // any other reason

  /** A settle-once cell: the state of the promise a `Cancelable` wraps. */
  datatype Settlement = Pending | Fulfilled(value: Value) | Rejected(reason: Reason)

  /** What the executor passed to the cancel-registration callback. */
  datatype Handler = Callable(code: nat) | NotCallable

  /** The argument `cancel(cb)` passes on to hooks; `DefaultNoOp` is the `() => {}` default. */
  datatype Callback = DefaultNoOp | Supplied(code: nat)

  /** One invocation of a cancel hook: the node whose hook ran, the hook, and its argument. */
  datatype HookCall = HookCall(node: nat, hook: nat, arg: Callback)

  /** The errors the component throws synchronously. */
  datatype Error = TypeError

  /**
    * Settling a promise that is already settled has no effect (single-resolution
    * semantics of the host promise that `_reject` and the executor's callbacks drive).
    */
  function SettleOnce(cell: Settlement, outcome: Settlement): (r: Settlement)
    requires !outcome.Pending?
    ensures cell.Pending? ==> r == outcome
    ensures !cell.Pending? ==> r == cell
    ensures !r.Pending?
  {
    if cell.Pending? then outcome else cell
  }

  /**
    * `Cancelable.isCancelable`: the value is non-falsy and carries the tag. Thenables,
    * functions and plain values do not carry it.
    */
  predicate IsCancelable(v: Value)
  {
    v.Cancelable?
  }

  /** The ids of the cancelable values among `vs`, in input order, repetitions kept. */
  function CancelableIds(vs: seq<Value>): (ids: seq<nat>)
    ensures |ids| <= |vs|
    ensures forall c :: c in ids <==> Cancelable(c) in vs
  {
    if vs == [] then []
    else
      var rest := CancelableIds(vs[1..]);
      assert forall c :: Cancelable(c) in vs <==> vs[0] == Cancelable(c) || Cancelable(c) in vs[1..];
      if IsCancelable(vs[0]) then [vs[0].id] + rest else rest
  }

  /**
    * The `children` field `all`/`race` leave on their result: `null` when no input is
    * cancelable, otherwise the cancelable inputs in order.
    */
  function ChildrenOf(vs: seq<Value>): Option<seq<nat>>
  {
    var ids := CancelableIds(vs);
    if ids == [] then None else Some(ids)
  }

  /** `children` stays `null` exactly when no input is cancelable, and is never an empty list. */
  lemma ChildrenOfNull(vs: seq<Value>)
    ensures ChildrenOf(vs).None? <==> forall k :: 0 <= k < |vs| ==> !IsCancelable(vs[k])
    ensures ChildrenOf(vs).Some? ==> ChildrenOf(vs).value != []
  {
    var ids := CancelableIds(vs);
    forall k | 0 <= k < |vs| && IsCancelable(vs[k]) ensures vs[k].id in ids {
      assert Cancelable(vs[k].id) == vs[k];
    }
    if ids != [] {
      assert Cancelable(ids[0]) in vs;
      var k :| 0 <= k < |vs| && vs[k] == Cancelable(ids[0]);
      assert IsCancelable(vs[k]);
    }
  }

  /** Filtering the cancelable inputs distributes over concatenation: the order is kept. */
  lemma {:induction false} CancelableIdsAppend(a: seq<Value>, b: seq<Value>)
    ensures CancelableIds(a + b) == CancelableIds(a) + CancelableIds(b)
  {
    if a == [] {
      assert a + b == b;
    } else {
      assert (a + b)[0] == a[0];
      assert (a + b)[1..] == a[1..] + b;
      CancelableIdsAppend(a[1..], b);
    }
  }

  /** One input on its own: a cancelable contributes its id, anything else nothing. */
  lemma CancelableIdsSingle(v: Value)
    ensures CancelableIds([v]) == if IsCancelable(v) then [v.id] else []
  {
    assert [v][1..] == [];
  }

  /** The number of cancelable inputs, counted with repetitions, is the length of the filter. */
  function CountCancelable(vs: seq<Value>): nat
  {
    if vs == [] then 0 else (if IsCancelable(vs[0]) then 1 else 0) + CountCancelable(vs[1..])
  }

  lemma {:induction false} CancelableIdsCount(vs: seq<Value>)
    ensures |CancelableIds(vs)| == CountCancelable(vs)
  {
    if vs != [] {
      CancelableIdsCount(vs[1..]);
    }
  }

  /** The filter picks out exactly the cancelable positions, in increasing order. */
  lemma {:induction false} CancelableIdsAt(vs: seq<Value>, k: nat)
    requires k < |vs| && IsCancelable(vs[k])
    ensures var before := CountCancelable(vs[..k]);
      before < |CancelableIds(vs)| && CancelableIds(vs)[before] == vs[k].id
  {
    assert vs == vs[..k] + vs[k..];
    CancelableIdsAppend(vs[..k], vs[k..]);
    CancelableIdsCount(vs[..k]);
    assert vs[k..][0] == vs[k];
  }
}
