/** ConstructorBinding: a BaseBinding around a function that builds a value on
    every resolve; and the error chains BaseBinding builds when bindings that
    resolve other bindings fail. */
module ConstructorBindings {
  import opened Exceptions
  import opened Graph
  import opened Evaluation

  /** The constructor refuses a null function and otherwise keeps it as given. */
  function NewConstructorBinding(produces: Type, func: Option<Expr>): (r: Result<Binding>)
    ensures func.None? <==> r.Failure?
    ensures func.None? ==> r.error == ArgumentNull("constructor")
    ensures r.Success? ==> r.value.Constructor? && r.value.ctor == func.value && r.value.produces == produces
  {
    if func.None? then Failure(ArgumentNull("constructor")) else Success(Constructor(produces, func.value))
  }

  /** Resolving calls the function; its failure comes back as a resolution error
      naming ConstructorBinding, with the original failure as inner cause. */
  lemma ResolveCallsFunction(t: Type, f: Expr, h: Heap)
    ensures var o := Resolve(Constructor(t, f), h);
            var call := Eval(f, [], h);
            o.heap == call.heap
            && (call.result.Success? ==> o.result == call.result)
            && (call.result.Failure? ==> o.result == Failure(Wrapped(Generic("ConstructorBinding", [t]), call.result.error)))
  {
  }

  /** Nothing is cached: two resolves of `() => new C()` give distinct objects. */
  lemma {:induction false} NoCaching(t: Type, cls: string, h: Heap)
    ensures var b := Constructor(t, New(cls, []));
            var first := Resolve(b, h);
            var second := Resolve(b, first.heap);
            first.result.Success? && second.result.Success? && first.result.value != second.result.value
  {
    var b := Constructor(t, New(cls, []));
    assert EvalList([], [], h) == ListOutcome(Success([]), h);
    assert Eval(New(cls, []), [], h) == Outcome(Success(Obj(h.next, cls, [], map[])), Allocate(h));
    var first := Resolve(b, h);
    assert first.result == Success(Obj(h.next, cls, [], map[])) && first.heap.next == h.next + 1;
    assert EvalList([], [], first.heap) == ListOutcome(Success([]), first.heap);
  }

  /** Every BaseBinding wraps, whatever it caught: a binding whose function
      resolves another binding that throws reports a chain of two resolution
      errors, outer binding first, over the original cause. */
  lemma {:induction false} ErrorChain(outer: Type, inner: Type, x: Exception, h: Heap)
    ensures var b := Constructor(outer, Captured(Constructor(inner, Throw(x))));
            var o := Resolve(b, h);
            o == Outcome(Failure(Wrapped(Generic("ConstructorBinding", [outer]),
                                         Wrapped(Generic("ConstructorBinding", [inner]), x))), h)
            && WrapDepth(o.result.error) == WrapDepth(x) + 2 && RootCause(o.result.error) == RootCause(x)
  {
    var b := Constructor(inner, Throw(x));
    assert Resolve(b, h) == Outcome(Failure(Wrapped(Generic("ConstructorBinding", [inner]), x)), h);
  }
}
