/** What the inliner guarantees: flattening a lazy binding keeps its meaning,
    and a graph of lazy bindings collapses into one producer with no
    intermediate `Resolve` indirection. */
module Flattening {
  import opened Exceptions
  import opened Graph
  import opened Inlining
  import opened Evaluation


  /** Every dependency is lazy, and so, transitively, are theirs. */
  predicate DeepLazy(deps: seq<Binding>)
    decreases MaxHeight(deps), |deps|
  {
    |deps| == 0 ||
    (IsLazy(deps[0])
     && (LazyHeight(deps[0]); DeepLazy(Deps(deps[0])))
     && DeepLazy(deps[1..]))
  }

  /** Two runs produce the same value and the same state, or both fail with the
      same root cause, the first with no more wrapping than the second. */
  ghost predicate Agree(inlined: Outcome, reference: Outcome)
  {
    && inlined.heap == reference.heap
    && inlined.result.Success? == reference.result.Success?
    && (inlined.result.Success? ==> inlined.result.value == reference.result.value)
    && (inlined.result.Failure? ==>
          RootCause(inlined.result.error) == RootCause(reference.result.error)
          && WrapDepth(inlined.result.error) <= WrapDepth(reference.result.error))
  }

  ghost predicate AgreeList(inlined: ListOutcome, reference: ListOutcome)
  {
    && inlined.heap == reference.heap
    && inlined.result.Success? == reference.result.Success?
    && (inlined.result.Success? ==> inlined.result.value == reference.result.value)
    && (inlined.result.Failure? ==>
          RootCause(inlined.result.error) == RootCause(reference.result.error)
          && WrapDepth(inlined.result.error) <= WrapDepth(reference.result.error))
  }

  /** Running the inlined expression (which binds no dependency array) behaves
      like running the original expression with each `b[i]` resolved through
      `deps[i]`. The one difference is on failure: an inlined dependency's
      failure is no longer wrapped by that dependency, so the chain is shorter
      but ends in the same cause. */
  lemma {:induction false} InlinePreservesMeaning(e: Expr, deps: seq<Binding>, h: Heap)
    requires Inline(e, deps).Success?
    ensures Agree(Eval(Inline(e, deps).value, [], h), Eval(e, deps, h))
    decreases Size(e)
  {
    match e
    case New(c, args) =>
      InlineListPreservesMeaning(args, deps, h);
    case MemberInit(c, args, fs, vs) =>
      InlineListPreservesMeaning(args, deps, h);
      var a := EvalList(args, deps, h);
      if a.result.Success? {
        InlineListPreservesMeaning(vs, deps, Allocate(a.heap));
      }
    case Call(f, args) =>
      InlineListPreservesMeaning(args, deps, h);
    case DepResolve(i) =>
      if IsLazy(deps[i]) {
        var x := Flatten(deps[i]);
        assert Inline(e, deps) == x;
      }
    case _ =>
  }

  lemma {:induction false} InlineListPreservesMeaning(es: seq<Expr>, deps: seq<Binding>, h: Heap)
    requires InlineList(es, deps).Success?
    ensures AgreeList(EvalList(InlineList(es, deps).value, [], h), EvalList(es, deps, h))
    decreases SizeList(es)
  {
    if |es| > 0 {
      var xs := InlineList(es, deps).value;
      assert xs[0] == Inline(es[0], deps).value;
      assert xs[1..] == InlineList(es[1..], deps).value;
      InlinePreservesMeaning(es[0], deps, h);
      var r := Eval(es[0], deps, h);
      if r.result.Success? {
        InlineListPreservesMeaning(es[1..], deps, r.heap);
      }
    }
  }

  /** Resolving a lazy binding (through its flattened producer) agrees with
      running its original body against its dependency list and wrapping
      failures as BaseBinding does. */
  lemma ResolveMatchesReference(b: Binding, h: Heap)
    requires b.Lazy?
    requires Flatten(b).Success?
    ensures Agree(Resolve(b, h), WrapFailure(RuntimeType(b), Eval(b.body, b.deps, h)))
  {
    InlinePreservesMeaning(b.body, b.deps, h);
  }

  lemma {:induction false} DeepLazyAt(deps: seq<Binding>, i: int)
    requires DeepLazy(deps) && 0 <= i < |deps|
    ensures IsLazy(deps[i]) && DeepLazy(Deps(deps[i]))
    decreases i
  {
    if i > 0 {
      DeepLazyAt(deps[1..], i - 1);
      assert deps[1..][i - 1] == deps[i];
    }
  }

  /** A flattened expression has no `b[i].Resolve()` left: lazy dependencies are
      inlined and the others are resolved directly, so the parameterless
      producer is self-contained. */
  lemma {:induction false} InlineLeavesNoRefs(e: Expr, deps: seq<Binding>)
    requires Inline(e, deps).Success?
    ensures Refs(Inline(e, deps).value) == []
    decreases MaxHeight(deps), Size(e)
  {
    match e
    case New(c, args) => InlineListLeavesNoRefs(args, deps);
    case MemberInit(c, args, fs, vs) =>
      InlineListLeavesNoRefs(args, deps);
      InlineListLeavesNoRefs(vs, deps);
    case Call(f, args) => InlineListLeavesNoRefs(args, deps);
    case DepResolve(i) =>
      if IsLazy(deps[i]) {
        HeightBelowMax(deps, i);
        LazyHeight(deps[i]);
        InlineLeavesNoRefs(Body(deps[i]), Deps(deps[i]));
      }
    case _ =>
  }

  lemma {:induction false} InlineListLeavesNoRefs(es: seq<Expr>, deps: seq<Binding>)
    requires InlineList(es, deps).Success?
    ensures RefsList(InlineList(es, deps).value) == []
    decreases MaxHeight(deps), SizeList(es)
  {
    if |es| > 0 {
      var xs := InlineList(es, deps).value;
      assert xs[0] == Inline(es[0], deps).value;
      assert xs[1..] == InlineList(es[1..], deps).value;
      InlineLeavesNoRefs(es[0], deps);
      InlineListLeavesNoRefs(es[1..], deps);
      assert xs == [xs[0]] + xs[1..];
    }
  }

  /** An expression without `b[i]` references is left exactly as it is. */
  lemma {:induction false} InlineWithoutRefs(e: Expr, deps: seq<Binding>)
    requires Refs(e) == []
    ensures Inline(e, deps) == Success(e)
    decreases Size(e)
  {
    match e
    case New(c, args) => InlineListWithoutRefs(args, deps);
    case MemberInit(c, args, fs, vs) =>
      InlineListWithoutRefs(args, deps);
      InlineListWithoutRefs(vs, deps);
    case Call(f, args) => InlineListWithoutRefs(args, deps);
    case _ =>
  }

  lemma {:induction false} InlineListWithoutRefs(es: seq<Expr>, deps: seq<Binding>)
    requires RefsList(es) == []
    ensures InlineList(es, deps) == Success(es)
    decreases SizeList(es)
  {
    if |es| > 0 {
      InlineWithoutRefs(es[0], deps);
      InlineListWithoutRefs(es[1..], deps);
      assert es == [es[0]] + es[1..];
    }
  }

  // ------------------------------------------------------------- examples

  lemma InlineSingleton(e: Expr, deps: seq<Binding>)
    ensures Inline(e, deps).Success? ==> InlineList([e], deps) == Success([Inline(e, deps).value])
  {
    assert [e][1..] == [];
    assert InlineList([], deps) == Success([]);
    if Inline(e, deps).Success? {
      assert [Inline(e, deps).value] + [] == [Inline(e, deps).value];
    }
  }

  lemma EvalSingleton(e: Expr, env: seq<Binding>, h: Heap)
    ensures var o := Eval(e, env, h);
            o.result.Success? ==> EvalList([e], env, h) == ListOutcome(Success([o.result.value]), o.heap)
  {
    var o := Eval(e, env, h);
    assert [e][1..] == [];
    assert EvalList([], env, o.heap) == ListOutcome(Success([]), o.heap);
    if o.result.Success? {
      assert [o.result.value] + [] == [o.result.value];
    }
  }

  /** The inliner's documented example: `new Value(b[0].Resolve())` over a lazy
      `new Dep()` flattens to `new Value(new Dep())`. */
  lemma FlattensNestedLazy(t: Type, d: Type)
    ensures Flatten(Lazy(t, [Lazy(d, [], New("Dep", []))], New("Value", [DepResolve(0)])))
            == Success(New("Value", [New("Dep", [])]))
  {
    var dep := Lazy(d, [], New("Dep", []));
    assert InlineList([], []) == Success([]);
    assert Inline(New("Dep", []), []) == Success(New("Dep", []));
    assert Inline(DepResolve(0), [dep]) == Success(New("Dep", []));
    assert [DepResolve(0)][1..] == [];
    assert InlineList([], [dep]) == Success([]);
    InlineSingleton(DepResolve(0), [dep]);
    assert InlineList([DepResolve(0)], [dep]) == Success([New("Dep", [])]);
  }

  /** Inlining also reaches dependencies assigned in a member initialiser. */
  lemma FlattensInsideInitializer(t: Type, d: Type)
    ensures Flatten(Lazy(t, [Lazy(d, [], New("Sample", []))],
                         MemberInit("Sample", [], ["Obj"], [DepResolve(0)])))
            == Success(MemberInit("Sample", [], ["Obj"], [New("Sample", [])]))
  {
    var dep := Lazy(d, [], New("Sample", []));
    assert InlineList([], [dep]) == Success([]);
    assert Inline(New("Sample", []), []) == Success(New("Sample", []));
    assert Inline(DepResolve(0), [dep]) == Success(New("Sample", []));
    assert [DepResolve(0)][1..] == [];
    InlineSingleton(DepResolve(0), [dep]);
    assert InlineList([DepResolve(0)], [dep]) == Success([New("Sample", [])]);
  }

  /** A `b[i]` whose dependency is not lazy becomes a direct resolve of that
      dependency, and a `Resolve()` on a captured binding is left as it is. */
  lemma CapturesNonLazyReferences(t: Type, s: Type)
    ensures var c := Constructor(s, New("Sample", []));
            Inline(New("HasSample", [DepResolve(0)]), [c]) == Success(New("HasSample", [Captured(c)]))
            && Inline(New("HasSample", [Captured(c)]), []) == Success(New("HasSample", [Captured(c)]))
  {
    var c := Constructor(s, New("Sample", []));
    assert [DepResolve(0)][1..] == [] && [Captured(c)][1..] == [];
    assert InlineList([], [c]) == Success([]) && InlineList([], []) == Success([]);
    InlineSingleton(DepResolve(0), [c]);
    InlineSingleton(Captured(c), []);
    assert InlineList([DepResolve(0)], [c]) == Success([Captured(c)]);
    assert InlineList([Captured(c)], []) == Success([Captured(c)]);
  }

  /** Resolving the flattened example builds `new HasSample(new Sample())`: two
      fresh objects, the inner one allocated first. */
  lemma ResolvesNestedLazy(t: Type, s: Type, h: Heap)
    ensures var b := Lazy(t, [Lazy(s, [], New("Sample", []))], New("HasSample", [DepResolve(0)]));
            Resolve(b, h).result
              == Success(Obj(h.next + 1, "HasSample", [Obj(h.next, "Sample", [], map[])], map[]))
  {
    var dep := Lazy(s, [], New("Sample", []));
    var b := Lazy(t, [dep], New("HasSample", [DepResolve(0)]));
    assert InlineList([], []) == Success([]);
    assert Inline(DepResolve(0), [dep]) == Success(New("Sample", []));
    assert [DepResolve(0)][1..] == [] && [New("Sample", [])][1..] == [];
    assert InlineList([], [dep]) == Success([]);
    InlineSingleton(DepResolve(0), [dep]);
    assert InlineList([DepResolve(0)], [dep]) == Success([New("Sample", [])]);
    assert Flatten(b) == Success(New("HasSample", [New("Sample", [])]));
    var inner := Eval(New("Sample", []), [], h);
    assert EvalList([], [], h) == ListOutcome(Success([]), h);
    assert inner.result == Success(Obj(h.next, "Sample", [], map[]));
    assert EvalList([], [], inner.heap) == ListOutcome(Success([]), inner.heap);
    EvalSingleton(New("Sample", []), [], h);
    assert EvalList([New("Sample", [])], [], h).result == Success([Obj(h.next, "Sample", [], map[])]);
  }

  // ------------------------------------------------ the inliner as written

  /** With dependencies lazy all the way down, the inliner as written and the
      corrected one produce the same expression. */
  lemma {:induction false} AsWrittenMatchesWhenDeepLazy(e: Expr, deps: seq<Binding>)
    requires DeepLazy(deps)
    ensures InlineAsWritten(e, deps) == Inline(e, deps)
    decreases MaxHeight(deps), Size(e)
  {
    match e
    case New(c, args) => ListAsWrittenMatchesWhenDeepLazy(args, deps);
    case MemberInit(c, args, fs, vs) =>
      ListAsWrittenMatchesWhenDeepLazy(args, deps);
      ListAsWrittenMatchesWhenDeepLazy(vs, deps);
    case Call(f, args) => ListAsWrittenMatchesWhenDeepLazy(args, deps);
    case DepResolve(i) =>
      if 0 <= i < |deps| {
        DeepLazyAt(deps, i);
        HeightBelowMax(deps, i);
        LazyHeight(deps[i]);
        AsWrittenMatchesWhenDeepLazy(Body(deps[i]), Deps(deps[i]));
      }
    case _ =>
  }

  lemma {:induction false} ListAsWrittenMatchesWhenDeepLazy(es: seq<Expr>, deps: seq<Binding>)
    requires DeepLazy(deps)
    ensures InlineListAsWritten(es, deps) == InlineList(es, deps)
    decreases MaxHeight(deps), SizeList(es)
  {
    if |es| > 0 {
      AsWrittenMatchesWhenDeepLazy(es[0], deps);
      ListAsWrittenMatchesWhenDeepLazy(es[1..], deps);
    }
  }

  /** The discrepancy: `new HasSample(b[0].Resolve())` over a ConstructorBinding.
      As written, the `b[0]` survives inlining and the parameterless lambda does
      not compile; corrected, the binding resolves to a HasSample around a
      fresh Sample. */
  lemma NonLazyDependencyAsWritten(t: Type, s: Type, h: Heap)
    ensures var c := Constructor(s, New("Sample", []));
            var e := New("HasSample", [DepResolve(0)]);
            CompileAsWritten(e, [c]) == Failure(InvalidOperation(UnboundParameter))
            && Resolve(Lazy(t, [c], e), h).result
                 == Success(Obj(h.next + 1, "HasSample", [Obj(h.next, "Sample", [], map[])], map[]))
  {
    var c := Constructor(s, New("Sample", []));
    var e := New("HasSample", [DepResolve(0)]);
    assert [DepResolve(0)][1..] == [];
    assert InlineListAsWritten([], [c]) == Success([]);
    assert InlineAsWritten(DepResolve(0), [c]) == Success(DepResolve(0));
    assert [DepResolve(0)] + [] == [DepResolve(0)];
    assert InlineListAsWritten([DepResolve(0)], [c]) == Success([DepResolve(0)]);
    assert Refs(DepResolve(0)) == [0];
    assert RefsList([DepResolve(0)]) == [0];
    CapturesNonLazyReferences(t, s);
    assert Flatten(Lazy(t, [c], e)) == Success(New("HasSample", [Captured(c)]));
    var inner := Eval(New("Sample", []), [], h);
    assert EvalList([], [], h) == ListOutcome(Success([]), h);
    assert inner.result == Success(Obj(h.next, "Sample", [], map[]));
    assert Resolve(c, h) == inner;
    assert Eval(Captured(c), [], h) == inner;
    EvalSingleton(Captured(c), [], h);
  }
}
