/** ValueScopedBinding and ReferenceScopedBinding: a lazy binding whose body,
    once SetBinding supplies the inner binding, selects a scope key and does a
    get-or-add on the scope's key-to-value cache with the inner binding's
    Resolve as the producer. Run sequentially, the two kinds behave alike:
    locking and weak references are the only differences and are not modelled. */
module Scopes {
  import opened Exceptions
  import opened Graph
  import opened Inlining
  import opened Evaluation
  import opened LazyBindings

  /** The constructor: a null selector is refused; the new binding owns a cache
      with a fresh identity and has no inner binding yet. */
  function NewScoped(kind: ScopeKind, produces: Type, selector: Option<Selector>, h: Heap): (r: Result<(Binding, Heap)>)
    ensures selector.None? <==> r.Failure?
    ensures selector.None? ==> r.error == ArgumentNull("valueSelector")
    ensures r.Success? ==> var (s, h') := r.value;
              s == Scoped(kind, produces, h.next, selector.value, None)
              && h'.next == h.next + 1 && Extends(h, h')
    ensures r.Success? && (forall c :: c in h.caches ==> c < h.next) ==>
              CacheOf(r.value.1, r.value.0.cache) == map[]
  {
    match selector
    case None => Failure(ArgumentNull("valueSelector"))
    case Some(sel) => Success((Scoped(kind, produces, h.next, sel, None), Allocate(h)))
  }

  /** SetBinding: a null binding is refused; otherwise the given binding becomes
      the producer behind the cache, and nothing else about the scope changes. */
  function SetBinding(s: Binding, inner: Option<Binding>): (r: Result<Binding>)
    requires s.Scoped?
    ensures inner.None? <==> r.Failure?
    ensures inner.None? ==> r.error == ArgumentNull("binding")
    ensures r.Success? ==> r.value.Scoped? && r.value.inner == inner
                           && r.value.kind == s.kind && r.value.produces == s.produces
                           && r.value.cache == s.cache && r.value.selector == s.selector
  {
    if inner.None? then Failure(ArgumentNull("binding")) else Success(s.(inner := inner))
  }

  /** Resolving a scoped binding is running its get-or-add body. */
  lemma ResolveScoped(s: Binding, h: Heap)
    requires s.Scoped? && s.inner.Some?
    ensures Resolve(s, h) == WrapFailure(RuntimeType(s), Eval(GetOrAdd(s.cache, s.selector, s.inner.value), [], h))
  {
    assert Flatten(s) == Success(GetOrAdd(s.cache, s.selector, s.inner.value));
  }

  /** Before SetBinding the construction expression yields null. */
  lemma UnsetScopeYieldsNull(s: Binding, h: Heap)
    requires s.Scoped? && s.inner.None?
    ensures Resolve(s, h) == Outcome(Success(Null), h)
  {
    assert Flatten(s) == Success(Const(Null));
  }

  /** A null key is refused by the cache, and the binding reports it wrapped. */
  lemma NullKeyFails(s: Binding, h: Heap)
    requires s.Scoped? && s.inner.Some?
    requires SelectKey(s.selector, h) == Success(Null)
    ensures Resolve(s, h).result == Failure(Wrapped(RuntimeType(s), ArgumentNull("key")))
    ensures Resolve(s, h).heap == h
  {
    ResolveScoped(s, h);
  }

  /** A selector that throws stops the resolve before the cache is consulted;
      the binding reports the selector's exception wrapped, and nothing changes. */
  lemma SelectorFailureIsWrapped(s: Binding, h: Heap)
    requires s.Scoped? && s.inner.Some?
    requires SelectKey(s.selector, h).Failure?
    ensures Resolve(s, h) == Outcome(Failure(Wrapped(RuntimeType(s), SelectKey(s.selector, h).error)), h)
  {
    ResolveScoped(s, h);
  }

  /** On a hit the cached value comes back and the inner binding is not run:
      the state, allocation counter included, is untouched. */
  lemma HitReturnsCached(s: Binding, h: Heap)
    requires s.Scoped? && s.inner.Some?
    requires SelectKey(s.selector, h).Success?
    requires var k := SelectKey(s.selector, h).value; k != Null && k in CacheOf(h, s.cache)
    ensures Resolve(s, h) == Outcome(Success(CacheOf(h, s.cache)[SelectKey(s.selector, h).value]), h)
  {
    ResolveScoped(s, h);
    var k := SelectKey(s.selector, h).value;
    assert Eval(GetOrAdd(s.cache, s.selector, s.inner.value), [], h) == Outcome(Success(CacheOf(h, s.cache)[k]), h);
  }

  /** On a miss the inner binding is resolved once; its value is stored under the
      key and returned. A failure is passed on, wrapped, and nothing is stored. */
  lemma MissResolvesInner(s: Binding, h: Heap)
    requires s.Scoped? && s.inner.Some?
    requires SelectKey(s.selector, h).Success?
    requires var k := SelectKey(s.selector, h).value; k != Null && k !in CacheOf(h, s.cache)
    ensures var k := SelectKey(s.selector, h).value;
            var inner := Resolve(s.inner.value, h);
            var o := Resolve(s, h);
            && (inner.result.Success? && k !in CacheOf(inner.heap, s.cache) ==>
                  o.result == inner.result
                  && o.heap == inner.heap.(caches := inner.heap.caches[s.cache := CacheOf(inner.heap, s.cache)[k := inner.result.value]]))
            && (inner.result.Failure? ==>
                  o == Outcome(Failure(Wrapped(RuntimeType(s), inner.result.error)), inner.heap))
  {
    ResolveScoped(s, h);
    MissEvaluatesInner(s.cache, s.selector, s.inner.value, h);
  }

  /** The get-or-add expression on a miss, before BaseBinding's wrapping. */
  lemma MissEvaluatesInner(c: nat, sel: Selector, inner: Binding, h: Heap)
    requires SelectKey(sel, h).Success?
    requires var k := SelectKey(sel, h).value; k != Null && k !in CacheOf(h, c)
    ensures var k := SelectKey(sel, h).value;
            var i := Resolve(inner, h);
            var g := Eval(GetOrAdd(c, sel, inner), [], h);
            && (i.result.Success? && k !in CacheOf(i.heap, c) ==>
                  g == Outcome(i.result, i.heap.(caches := i.heap.caches[c := CacheOf(i.heap, c)[k := i.result.value]])))
            && (i.result.Failure? ==> g == i)
  {
  }

  /** After a successful resolve the key maps to the value returned. */
  lemma ResolveRecordsKey(s: Binding, h: Heap)
    requires s.Scoped? && s.inner.Some?
    requires Resolve(s, h).result.Success?
    ensures SelectKey(s.selector, h).Success?
    ensures var o := Resolve(s, h);
            var k := SelectKey(s.selector, h).value;
            k in CacheOf(o.heap, s.cache) && CacheOf(o.heap, s.cache)[k] == o.result.value
  {
    ResolveScoped(s, h);
    var o := Resolve(s, h);
    var sk := SelectKey(s.selector, h);
    if sk.Success? && sk.value !in CacheOf(h, s.cache) {
      MissResolvesInner(s, h);
    }
  }

  /** Resolving twice under the same key gives the same instance, and the second
      resolve constructs nothing. A constant key makes the scope a singleton. */
  lemma SameKeySameInstance(s: Binding, h: Heap)
    requires s.Scoped? && s.inner.Some?
    requires Resolve(s, h).result.Success?
    ensures var first := Resolve(s, h);
            Resolve(s, first.heap) == Outcome(first.result, first.heap)
  {
    var first := Resolve(s, h);
    ResolveRecordsKey(s, h);
    assert SelectKey(s.selector, first.heap) == SelectKey(s.selector, h);
    HitReturnsCached(s, first.heap);
  }

  /** A later state still maps a key to the instance it was first given. */
  lemma EntriesPersist(s: Binding, h: Heap, later: Heap)
    requires s.Scoped? && s.inner.Some?
    requires Resolve(s, h).result.Success?
    requires Extends(Resolve(s, h).heap, later) || Resolve(s, h).heap == later
    ensures SelectKey(s.selector, h).Success?
    ensures var k := SelectKey(s.selector, h).value;
            k in CacheOf(later, s.cache) && CacheOf(later, s.cache)[k] == Resolve(s, h).result.value
  {
    ResolveRecordsKey(s, h);
  }

  /** `select new C()` resolves to a fresh `C`. */
  lemma ResolveNewObject(t: Type, cls: string, h: Heap)
    ensures Resolve(Lazy(t, [], New(cls, [])), h) == Outcome(Success(Obj(h.next, cls, [], map[])), Allocate(h))
  {
    assert InlineList([], []) == Success([]);
    assert Inline(New(cls, []), []) == Success(New(cls, []));
    assert Flatten(Lazy(t, [], New(cls, []))) == Success(New(cls, []));
    assert EvalList([], [], h) == ListOutcome(Success([]), h);
  }

  /** The alternating-key scenario: keys k1, k2, k1 give a first instance, a
      second and different one, and then the first one again. */
  lemma AlternatingKeys(s: Binding, h: Heap, k1: Value, k2: Value, cls: string, t: Type)
    requires s.Scoped? && s.selector == Ambient && s.inner == Some(Lazy(t, [], New(cls, [])))
    requires k1 != Null && k2 != Null && k1 != k2
    requires k1 !in CacheOf(h, s.cache) && k2 !in CacheOf(h, s.cache)
    ensures var first := Resolve(s, h.(ambient := k1));
            var second := Resolve(s, first.heap.(ambient := k2));
            var third := Resolve(s, second.heap.(ambient := k1));
            && first.result.Success? && second.result.Success?
            && first.result.value != second.result.value
            && third.result == first.result
  {
    var h1 := h.(ambient := k1);
    ResolveNewObject(t, cls, h1);
    MissResolvesInner(s, h1);
    var first := Resolve(s, h1);
    assert first.result == Success(Obj(h.next, cls, [], map[]));
    var h2 := first.heap.(ambient := k2);
    assert CacheOf(h2, s.cache) == CacheOf(h, s.cache)[k1 := first.result.value];
    ResolveNewObject(t, cls, h2);
    MissResolvesInner(s, h2);
    var second := Resolve(s, h2);
    assert second.result == Success(Obj(h.next + 1, cls, [], map[]));
    var h3 := second.heap.(ambient := k1);
    assert CacheOf(h3, s.cache)[k1] == first.result.value;
    HitReturnsCached(s, h3);
  }

  /** The scoped binding as the stateful object it is: a lazy binding over no
      dependencies whose expression is `bindings => null` until SetBinding
      replaces it with the get-or-add body. */
  function ScopeCell(s: Binding): (c: LazyCell)
    requires s.Scoped?
    ensures !IsBuilt(c) && c.dependencies == Some([]) && c.runtimeType == RuntimeType(s)
  {
    LazyCell(s.produces, RuntimeType(s), Some([]), Some(Const(Null)), Unbuilt)
  }

  /** SetBinding on the stateful object: only the expression changes, so a
      constructor that was already built is kept. */
  function SetCellBinding(c: LazyCell, s: Binding, inner: Option<Binding>): (r: Result<LazyCell>)
    requires s.Scoped?
    ensures inner.None? <==> r.Failure?
    ensures inner.None? ==> r.error == ArgumentNull("binding")
    ensures r.Success? ==> r.value == c.(expression := r.value.expression)
    ensures r.Success? ==> r.value.expression == Some(Body(s.(inner := inner)))
  {
    if inner.None? then Failure(ArgumentNull("binding"))
    else Success(c.(expression := Some(GetOrAdd(s.cache, s.selector, inner.value))))
  }

  /** Set before its first resolve, the stateful scope behaves exactly as the
      immutable scoped binding with that inner binding. */
  lemma {:induction false} ScopeCellMatchesBinding(s: Binding, inner: Binding, h: Heap)
    requires s.Scoped?
    ensures var c := SetCellBinding(ScopeCell(s), s, Some(inner)).value;
            ResolveCell(c, h).0 == Resolve(SetBinding(s, Some(inner)).value, h)
  {
    var body := GetOrAdd(s.cache, s.selector, inner);
    assert Inline(body, []) == Success(body);
    ResolveScoped(s.(inner := Some(inner)), h);
  }

  /** Resolved before SetBinding, the scope builds its constructor from
      `bindings => null`, and the Lazy cell keeps that constructor: a later
      SetBinding has no effect and the scope keeps yielding null. */
  lemma {:induction false} EarlyResolveSticks(s: Binding, inner: Binding, h: Heap, h2: Heap)
    requires s.Scoped?
    ensures var (o, c1) := ResolveCell(ScopeCell(s), h);
            o == Outcome(Success(Null), h)
            && var c2 := SetCellBinding(c1, s, Some(inner)).value;
               ResolveCell(c2, h2).0 == Outcome(Success(Null), h2)
  {
    var c := ScopeCell(s);
    assert Inline(Const(Null), []) == Success(Const(Null));
    assert Force(c).0 == Success(BindToConstructor(Const(Null)));
  }
}
