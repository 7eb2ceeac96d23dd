/** BindingExtensions: the LINQ operators that build bindings. `Select` turns a
    query's construction expression into a lazy binding, `GroupBy` makes a
    value-scoped binding, and `Wrap` hands the newly built binding to the
    binding on the left of the operator when that one is a filter. */
module Linq {
  import opened Exceptions
  import opened Graph
  import opened Inlining
  import opened Evaluation
  import opened Extraction
  import opened Flattening
  import opened Scopes

  /** IFilterBinding is implemented by ValueScopedBinding only; the reference
      scoped binding is a deferred binding and is not wrapped into. */
  predicate IsFilter(b: Binding) { b.Scoped? && b.kind == ValueScope }

  /** A filter on the left receives the new binding and is returned in its
      place; any other left-hand binding, null included, is discarded. */
  function Wrap(wrapper: Option<Binding>, wrapped: Binding): (r: Binding)
    ensures wrapper.Some? && IsFilter(wrapper.value) ==>
              r == wrapper.value.(inner := Some(wrapped)) && IsFilter(r)
    ensures !(wrapper.Some? && IsFilter(wrapper.value)) ==> r == wrapped
  {
    if wrapper.Some? && IsFilter(wrapper.value) then SetBinding(wrapper.value, Some(wrapped)).value
    else wrapped
  }

  /** `b` is the lazy binding built for expression `e`: its dependencies are the
      marked bindings in order, and its body refers to exactly those, by index. */
  predicate BuiltFrom(b: Binding, produces: Type, e: Expr)
  {
    && b.Lazy? && b.produces == produces && b.deps == Targets(e)
    && Refs(b.body) == Range(0, |b.deps|)
    && Resolved(b.body, b.deps) == Subst(e)
  }

  /** Select: refuses a null expression, passes on the builder's refusal of the
      expression, and otherwise wraps the lazy binding built from it. */
  function Select(wrapper: Option<Binding>, produces: Type, expression: Option<Expr>): (r: Result<Binding>)
    ensures expression.None? ==> r == Failure(ArgumentNull("expression"))
    ensures expression.Some? ==> (r.Failure? <==> Fault(expression.value).Some?)
    ensures expression.Some? && r.Failure? ==> r.error == Fault(expression.value).value
    ensures r.Success? && !(wrapper.Some? && IsFilter(wrapper.value)) ==>
              BuiltFrom(r.value, produces, expression.value)
    ensures r.Success? && wrapper.Some? && IsFilter(wrapper.value) ==>
              r.value.Scoped? && r.value == wrapper.value.(inner := r.value.inner) && r.value.inner.Some?
              && BuiltFrom(r.value.inner.value, produces, expression.value)
  {
    if expression.None? then Failure(ArgumentNull("expression"))
    else
      var x :- BuildLazyBindingExpression(expression.value);
      Success(Wrap(wrapper, Lazy(produces, x.deps, x.body)))
  }

  /** GroupBy: refuses a null selector, otherwise wraps a new, still unset
      value-scoped binding that groups by the selector's value. */
  function GroupBy(wrapper: Option<Binding>, produces: Type, selector: Option<Selector>, h: Heap): (r: Result<(Binding, Heap)>)
    ensures selector.None? <==> r.Failure?
    ensures selector.None? ==> r.error == ArgumentNull("valueSelector")
    ensures r.Success? ==> Extends(h, r.value.1) && r.value.1.next == h.next + 1
    ensures r.Success? && !(wrapper.Some? && IsFilter(wrapper.value)) ==>
              r.value.0 == Scoped(ValueScope, produces, h.next, selector.value, None)
    ensures r.Success? && wrapper.Some? && IsFilter(wrapper.value) ==>
              r.value.0 == wrapper.value.(inner := Some(Scoped(ValueScope, produces, h.next, selector.value, None)))
  {
    if selector.None? then Failure(ArgumentNull("valueSelector"))
    else
      var made := NewScoped(ValueScope, produces, selector, h).value;
      Success((Wrap(wrapper, made.0), made.1))
  }

  // ------------------------------------------------------------ meaning

  /** Running a body against its dependency list is running it with every `b[i]`
      replaced by a direct resolve of that dependency. */
  lemma {:induction false} EvalResolved(e: Expr, env: seq<Binding>, h: Heap)
    ensures Eval(Resolved(e, env), [], h) == Eval(e, env, h)
    decreases Size(e)
  {
    match e
    case New(c, args) => EvalListResolved(args, env, h);
    case MemberInit(c, args, fs, vs) =>
      EvalListResolved(args, env, h);
      var a := EvalList(args, env, h);
      if a.result.Success? {
        EvalListResolved(vs, env, Allocate(a.heap));
      }
    case Call(f, args) => EvalListResolved(args, env, h);
    case _ =>
  }

  lemma {:induction false} EvalListResolved(es: seq<Expr>, env: seq<Binding>, h: Heap)
    ensures EvalList(ResolvedList(es, env), [], h) == EvalList(es, env, h)
    decreases SizeList(es)
  {
    if |es| > 0 {
      var rs := ResolvedList(es, env);
      assert rs[0] == Resolved(es[0], env) && rs[1..] == ResolvedList(es[1..], env);
      EvalResolved(es[0], env, h);
      var x := Eval(es[0], env, h);
      if x.result.Success? {
        EvalListResolved(es[1..], env, x.heap);
      }
    }
  }

  /** What a selected binding does when resolved: it runs the query's
      expression with every `Dependency(binding)` standing for a resolve of that
      binding, and wraps a failure as BaseBinding does (up to the wrapping that
      inlining removes). */
  lemma SelectMeaning(produces: Type, e: Expr, h: Heap)
    requires Select(None, produces, Some(e)).Success?
    requires Flatten(Select(None, produces, Some(e)).value).Success?
    ensures var b := Select(None, produces, Some(e)).value;
            Agree(Resolve(b, h), WrapFailure(RuntimeType(b), Eval(Subst(e), [], h)))
  {
    var b := Select(None, produces, Some(e)).value;
    ResolveMatchesReference(b, h);
    EvalResolved(b.body, b.deps, h);
  }

  /** Wrapping into a filter makes the filter resolve through its own cache with
      the wrapped binding as the producer of missing entries; wrapping into
      anything else leaves the wrapped binding to resolve on its own. */
  lemma WrapResolves(wrapper: Binding, wrapped: Binding, h: Heap)
    ensures IsFilter(wrapper) ==>
              Resolve(Wrap(Some(wrapper), wrapped), h)
                == WrapFailure(RuntimeType(wrapper), Eval(GetOrAdd(wrapper.cache, wrapper.selector, wrapped), [], h))
    ensures !IsFilter(wrapper) ==> Resolve(Wrap(Some(wrapper), wrapped), h) == Resolve(wrapped, h)
  {
    if IsFilter(wrapper) {
      ResolveScoped(Wrap(Some(wrapper), wrapped), h);
    }
  }

  /** A select after a group-by: the scope resolves through its cache, and a
      missing entry is produced by the binding the same select would build on
      its own. */
  lemma SelectIntoGroupResolves(g: Binding, t: Type, e: Expr, h: Heap)
    requires IsFilter(g)
    requires Select(Some(g), t, Some(e)).Success?
    ensures Select(None, t, Some(e)).Success?
    ensures Select(Some(g), t, Some(e)).value == Wrap(Some(g), Select(None, t, Some(e)).value)
    ensures Resolve(Select(Some(g), t, Some(e)).value, h)
              == WrapFailure(RuntimeType(g), Eval(GetOrAdd(g.cache, g.selector, Select(None, t, Some(e)).value), [], h))
  {
    WrapResolves(g, Select(None, t, Some(e)).value, h);
  }

  // ------------------------------------------------------------ queries

  /** `from value in Bind<T>() select value` uses the range variable and is
      refused. */
  lemma SelectingRangeVariableFails(t: Type, w: Option<Binding>)
    ensures Select(w, t, Some(Param("value"))) == Failure(Argument(ParameterMessage))
  {
  }

  /** `select new HasSample(Dependency(sampleBinding))` over a selected
      `new Sample()` resolves to a HasSample holding a fresh Sample. */
  lemma {:induction false} SelectedDependencyResolves(s: Type, t: Type, h: Heap)
    ensures var sample := Select(None, s, Some(New("Sample", [])));
            sample.Success?
            && var hasSample := Select(None, t, Some(New("HasSample", [DepMark(Some(sample.value))])));
               hasSample.Success?
               && Resolve(hasSample.value, h).result
                    == Success(Obj(h.next + 1, "HasSample", [Obj(h.next, "Sample", [], map[])], map[]))
  {
    var e0 := New("Sample", []);
    assert ExtractList([], []) == Success(ExtractedList([], []));
    assert Extract(e0, []) == Success(Extracted(e0, []));
    var sample := Lazy(s, [], e0);
    assert Select(None, s, Some(e0)) == Success(sample);
    var e1 := New("HasSample", [DepMark(Some(sample))]);
    assert Extract(DepMark(Some(sample)), []) == Success(Extracted(DepResolve(0), [sample]));
    assert [DepMark(Some(sample))][1..] == [];
    assert ExtractList([], [sample]) == Success(ExtractedList([], [sample]));
    assert ExtractList([DepMark(Some(sample))], []) == Success(ExtractedList([DepResolve(0)] + [], [sample]));
    assert [DepResolve(0)] + [] == [DepResolve(0)];
    assert Select(None, t, Some(e1)) == Success(Lazy(t, [sample], New("HasSample", [DepResolve(0)])));
    ResolvesNestedLazy(t, s, h);
  }

  /** `group type by k into scope select new Sample()` with a constant key:
      every resolve returns the first instance. */
  lemma {:induction false} GroupedConstantIsSingleton(t: Type, k: Value, h: Heap)
    requires k != Null
    ensures var g := GroupBy(None, t, Some(Fixed(k)), h);
            g.Success?
            && var b := Select(Some(g.value.0), t, Some(New("Sample", [])));
               b.Success?
               && var first := Resolve(b.value, g.value.1);
                  first.result.Success? && Resolve(b.value, first.heap) == first
  {
    var g := GroupBy(None, t, Some(Fixed(k)), h).value;
    var e0 := New("Sample", []);
    assert ExtractList([], []) == Success(ExtractedList([], []));
    assert Extract(e0, []) == Success(Extracted(e0, []));
    var b := Select(Some(g.0), t, Some(e0)).value;
    assert b == g.0.(inner := Some(Lazy(t, [], e0)));
    var h1 := g.1;
    if k in CacheOf(h1, b.cache) {
      HitReturnsCached(b, h1);
    } else {
      ResolveNewObject(t, "Sample", h1);
      MissResolvesInner(b, h1);
    }
    SameKeySameInstance(b, h1);
  }

  /** `group type by val into scope select new Sample()` where `val` is read on
      each resolve: a new value gets a new instance and an old one its old
      instance, on a scope made in a state whose caches all predate it. */
  lemma {:induction false} GroupedAmbientScopes(t: Type, h: Heap, k1: Value, k2: Value)
    requires k1 != Null && k2 != Null && k1 != k2
    requires forall c :: c in h.caches ==> c < h.next
    ensures var g := GroupBy(None, t, Some(Ambient), h);
            g.Success?
            && var b := Select(Some(g.value.0), t, Some(New("Sample", [])));
               b.Success?
               && var first := Resolve(b.value, g.value.1.(ambient := k1));
                  var second := Resolve(b.value, first.heap.(ambient := k2));
                  var third := Resolve(b.value, second.heap.(ambient := k1));
                  && first.result.Success? && second.result.Success?
                  && first.result.value != second.result.value
                  && third.result == first.result
  {
    var g := GroupBy(None, t, Some(Ambient), h).value;
    var e0 := New("Sample", []);
    assert ExtractList([], []) == Success(ExtractedList([], []));
    assert Extract(e0, []) == Success(Extracted(e0, []));
    var b := Select(Some(g.0), t, Some(e0)).value;
    assert b == g.0.(inner := Some(Lazy(t, [], e0)));
    assert CacheOf(g.1, b.cache) == map[];
    AlternatingKeys(b, g.1, k1, k2, "Sample", t);
  }

  /** `group type by type.Name`: GroupBy passes null to the user's selector, so
      a selector that reads a member of its argument throws on every resolve,
      and the scope reports the NullReferenceException wrapped, changing nothing. */
  lemma {:induction false} GroupedByMemberOfNullFails(t: Type, h: Heap, later: Heap)
    ensures var g := GroupBy(None, t, Some(Failing(NullReference)), h);
            g.Success?
            && var b := Select(Some(g.value.0), t, Some(New("Sample", [])));
               b.Success?
               && Resolve(b.value, later)
                    == Outcome(Failure(Wrapped(Generic("ValueScopedBinding", [t]), NullReference)), later)
  {
    var g := GroupBy(None, t, Some(Failing(NullReference)), h).value;
    var e0 := New("Sample", []);
    assert ExtractList([], []) == Success(ExtractedList([], []));
    assert Extract(e0, []) == Success(Extracted(e0, []));
    var b := Select(Some(g.0), t, Some(e0)).value;
    assert b == g.0.(inner := Some(Lazy(t, [], e0)));
    SelectorFailureIsWrapped(b, later);
  }
}
