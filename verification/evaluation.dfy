/** Running compiled construction expressions and resolving bindings.

    `Resolve`: a ConstructorBinding calls its function; a lazy binding
    flattens its construction expression with the corrected inliner (see
    `Inlining`) and runs the flattened body directly, with no separate compile
    step (which binds no `b` array); BaseBinding wraps every
    failure of either in a BindingResolutionException of the binding's runtime
    type. `Eval` takes the array `b` the body is applied to as `env`: the
    compiled producer is run with an empty one, while running an uninlined body
    against its dependency list gives the reference meaning used in the
    inlining proofs. */
module Evaluation {
  import opened Exceptions
  import opened Graph
  import opened Inlining

  datatype ListOutcome = ListOutcome(result: Result<seq<Value>>, heap: Heap)

  /** BaseBinding.Resolve: success passes through untouched, any failure becomes
      one more BindingResolutionException layer whose inner exception is the
      original one. */
  function WrapFailure(t: Type, o: Outcome): (r: Outcome)
    ensures r.heap == o.heap
    ensures o.result.Success? ==> r.result == o.result
    ensures o.result.Failure? ==> r.result.Failure? && r.result.error.Resolution?
                                  && r.result.error.bindingType == t
                                  && r.result.error.inner == Some(o.result.error)
    ensures o.result.Failure? ==> WrapDepth(r.result.error) == WrapDepth(o.result.error) + 1
                                  && RootCause(r.result.error) == RootCause(o.result.error)
  {
    if o.result.Failure? then Outcome(Failure(Wrapped(t, o.result.error)), o.heap) else o
  }

  /** The key the selector yields in the given state, or the exception it throws. */
  function SelectKey(sel: Selector, h: Heap): Result<Value>
  {
    match sel
    case Fixed(k) => Success(k)
    case Ambient => Success(h.ambient)
    case Failing(x) => Failure(x)
  }

  /** Field assignments of a member initialiser, applied in order. */
  function Assign(m: map<string, Value>, fs: seq<string>, vs: seq<Value>): map<string, Value>
    decreases |fs|
  {
    if |fs| == 0 || |vs| == 0 then m else Assign(m[fs[0] := vs[0]], fs[1..], vs[1..])
  }

  /** Allocate a fresh object identity. */
  function Allocate(h: Heap): (r: Heap)
    ensures r.next == h.next + 1 && Extends(h, r)
  {
    h.(next := h.next + 1)
  }

  function Eval(e: Expr, env: seq<Binding>, h: Heap): (o: Outcome)
    ensures Extends(h, o.heap)
    decreases Max(BMax(e), MaxHeight(env)), 1, Size(e)
  {
    match e
    case Const(v) => Outcome(Success(v), h)
    case New(c, args) =>
      var a := EvalList(args, env, h);
      if a.result.Failure? then Outcome(Failure(a.result.error), a.heap)
      else Outcome(Success(Obj(a.heap.next, c, a.result.value, map[])), Allocate(a.heap))
    case MemberInit(c, args, fs, vs) =>
      var a := EvalList(args, env, h);
      if a.result.Failure? then Outcome(Failure(a.result.error), a.heap)
      else
        var id := a.heap.next;
        var v := EvalList(vs, env, Allocate(a.heap));
        if v.result.Failure? then Outcome(Failure(v.result.error), v.heap)
        else Outcome(Success(Obj(id, c, a.result.value, Assign(map[], fs, v.result.value))), v.heap)
    case Call(f, args) =>
      var a := EvalList(args, env, h);
      if a.result.Failure? then Outcome(Failure(a.result.error), a.heap)
      else Outcome(Success(App(f, a.result.value)), a.heap)
    case Param(n) => Outcome(Failure(InvalidOperation("unbound parameter " + n)), h)
    case DepMark(_) => Outcome(Success(Null), h)
    case DepResolve(i) =>
      if 0 <= i < |env| then
        HeightBelowMax(env, i);
        Resolve(env[i], h)
      else Outcome(Failure(IndexOutOfRange), h)
    case Captured(b) => Resolve(b, h)
    case GetOrAdd(c, sel, inner) =>
      var selected := SelectKey(sel, h);
      if selected.Failure? then Outcome(Failure(selected.error), h)
      else
      var key := selected.value;
      if key == Null then Outcome(Failure(ArgumentNull("key")), h)
      else if key in CacheOf(h, c) then Outcome(Success(CacheOf(h, c)[key]), h)
      else
        var o := Resolve(inner, h);
        if o.result.Failure? then o
        else if key in CacheOf(o.heap, c) then
          Outcome(Failure(Argument("An entry with the same key already exists.")), o.heap)
        else Outcome(o.result, o.heap.(caches := o.heap.caches[c := CacheOf(o.heap, c)[key := o.result.value]]))
    case Throw(x) => Outcome(Failure(x), h)
  }

  function EvalList(es: seq<Expr>, env: seq<Binding>, h: Heap): (o: ListOutcome)
    ensures Extends(h, o.heap)
    ensures o.result.Success? ==> |o.result.value| == |es|
    decreases Max(BMaxList(es), MaxHeight(env)), 1, SizeList(es)
  {
    if |es| == 0 then ListOutcome(Success([]), h)
    else
      var x := Eval(es[0], env, h);
      if x.result.Failure? then ListOutcome(Failure(x.result.error), x.heap)
      else
        var xs := EvalList(es[1..], env, x.heap);
        if xs.result.Failure? then xs
        else ListOutcome(Success([x.result.value] + xs.result.value), xs.heap)
  }

  function Resolve(b: Binding, h: Heap): (o: Outcome)
    ensures Extends(h, o.heap)
    ensures o.result.Failure? ==> o.result.error.Resolution? && o.result.error.bindingType == RuntimeType(b)
    decreases Height(b), 0, 0
  {
    if b.Constructor? then WrapFailure(RuntimeType(b), Eval(b.ctor, [], h))
    else
      match Flatten(b)
      case Failure(x) => Outcome(Failure(Wrapped(RuntimeType(b), x)), h)
      case Success(body) => WrapFailure(RuntimeType(b), Eval(body, [], h))
  }
}
