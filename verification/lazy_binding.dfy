/** LazyConstructorBinding as a stateful object: a dependency list and a
    construction expression, either of which a subclass may leave unset, and a
    once-only cell holding the BindToConstructor built from them. The cell is
    the framework's Lazy<T> in its default mode: the factory runs on first use,
    its value is kept, and an exception it throws is kept and thrown again. */
module LazyBindings {
  import opened Exceptions
  import opened Graph
  import opened Inlining
  import opened Evaluation

  /** BindToConstructor: a binding around an already compiled function. */
  datatype BindToConstructor = BindToConstructor(func: Expr)

  /** The BindToConstructor constructor refuses a null function. */
  function NewBindToConstructor(func: Option<Expr>): (r: Result<BindToConstructor>)
    ensures func.None? <==> r.Failure?
    ensures func.None? ==> r.error == ArgumentNull("constructor")
    ensures r.Success? ==> r.value.func == func.value
  {
    if func.None? then Failure(ArgumentNull("constructor"))
    else Success(BindToConstructor(func.value))
  }

  /** BindToConstructor.Resolve calls the function and does not wrap its errors:
      it is not a BaseBinding. */
  function ResolveConstructor(b: BindToConstructor, h: Heap): (o: Outcome)
    ensures Extends(h, o.heap)
    ensures o.result.Failure? && b.func.Throw? ==> o.result.error == b.func.error
    ensures b.func.New? && o.result.Success? ==> o.result.value.Obj? && o.result.value.id >= h.next
  {
    Eval(b.func, [], h)
  }

  /** A ConstructorBinding over the same function resolves as this binding does,
      plus BaseBinding's one layer of wrapping: BindToConstructor adds none. */
  lemma ConstructorBindingWrapsBindToConstructor(t: Type, f: Expr, h: Heap)
    ensures var plain := ResolveConstructor(BindToConstructor(f), h);
            var wrapped := Resolve(Constructor(t, f), h);
            && wrapped.heap == plain.heap
            && (plain.result.Success? ==> wrapped.result == plain.result)
            && (plain.result.Failure? ==>
                  && wrapped.result.Failure?
                  && wrapped.result.error.inner == Some(plain.result.error)
                  && WrapDepth(wrapped.result.error) == WrapDepth(plain.result.error) + 1)
  {
  }

  datatype BuildState = Unbuilt | Built(binding: BindToConstructor) | Faulted(error: Exception)

  /** `runtimeType` is what GetType() reports: the subclass, for the scoped
      bindings that derive from this one. */
  datatype LazyCell = LazyCell(produces: Type, runtimeType: Type, dependencies: Option<seq<Binding>>,
                               expression: Option<Expr>, state: BuildState)

  const DependenciesUnset := "Dependencies must be set before trying to build the final expression."
  const ExpressionUnset := "ConstructionExpression must be set before trying to build the final expression."

  /** The public constructor: both arguments are required, dependencies first. */
  function NewLazyCell(produces: Type, dependencies: Option<seq<Binding>>, expression: Option<Expr>): (r: Result<LazyCell>)
    ensures r.Success? <==> dependencies.Some? && expression.Some?
    ensures dependencies.None? ==> r == Failure(ArgumentNull("dependencies"))
    ensures dependencies.Some? && expression.None? ==> r == Failure(ArgumentNull("constructionExpression"))
    ensures r.Success? ==> r.value.dependencies == dependencies && r.value.expression == expression
                           && r.value.produces == produces && !IsBuilt(r.value)
                           && r.value.runtimeType == Generic("LazyConstructorBinding", [produces])
  {
    if dependencies.None? then Failure(ArgumentNull("dependencies"))
    else if expression.None? then Failure(ArgumentNull("constructionExpression"))
    else Success(LazyCell(produces, Generic("LazyConstructorBinding", [produces]), dependencies, expression, Unbuilt))
  }

  /** The protected constructor that subclasses use: nothing is set yet. */
  function EmptyCell(produces: Type): (r: LazyCell)
    ensures r.dependencies.None? && r.expression.None? && !IsBuilt(r)
  {
    LazyCell(produces, Generic("LazyConstructorBinding", [produces]), None, None, Unbuilt)
  }

  /** IsBuilt is `IsValueCreated` of the cell: true only once a constructor was built. */
  predicate IsBuilt(c: LazyCell) { c.state.Built? }

  /** A built cell hands out the constructor it holds without changing; an
      unbuilt or faulted one either runs the factory or throws. */
  lemma IsBuiltMeansValueKept(c: LazyCell)
    ensures IsBuilt(c) <==> Force(c).0.Success? && Force(c).1 == c
  {
  }

  /** BuildConstructor: refuses unset inputs, then inlines the expression against
      the dependency list and wraps the result in a BindToConstructor. */
  function BuildConstructor(c: LazyCell): (r: Result<BindToConstructor>)
    ensures c.dependencies.None? ==> r == Failure(InvalidOperation(DependenciesUnset))
    ensures c.dependencies.Some? && c.expression.None? ==> r == Failure(InvalidOperation(ExpressionUnset))
    ensures c.dependencies.Some? && c.expression.Some? ==>
              match Inline(c.expression.value, c.dependencies.value)
              case Success(body) => r == Success(BindToConstructor(body))
              case Failure(x) => r == Failure(x)
  {
    if c.dependencies.None? then Failure(InvalidOperation(DependenciesUnset))
    else if c.expression.None? then Failure(InvalidOperation(ExpressionUnset))
    else
      var body :- Inline(c.expression.value, c.dependencies.value);
      Success(BindToConstructor(body))
  }

  /** The `Constructor` property: forces the cell. The factory runs only when the
      cell is still unbuilt; afterwards the stored value or error is returned and
      the cell no longer changes. */
  function Force(c: LazyCell): (r: (Result<BindToConstructor>, LazyCell))
    ensures r.1 == c.(state := r.1.state) && !r.1.state.Unbuilt?
    ensures !c.state.Unbuilt? ==> r.1 == c
    ensures r.0.Success? <==> r.1.state.Built?
    ensures r.0.Success? ==> r.1.state.binding == r.0.value
    ensures r.0.Failure? ==> r.1.state == Faulted(r.0.error)
    ensures c.state.Unbuilt? ==> r.0 == BuildConstructor(c)
  {
    match c.state
    case Built(b) => (Success(b), c)
    case Faulted(x) => (Failure(x), c)
    case Unbuilt =>
      match BuildConstructor(c)
      case Success(b) => (Success(b), c.(state := Built(b)))
      case Failure(x) => (Failure(x), c.(state := Faulted(x)))
  }

  /** LazyConstructorBinding.Resolve: BaseBinding's wrapper around
      `Constructor.Resolve()`. A failure to build is wrapped like any other. */
  function ResolveCell(c: LazyCell, h: Heap): (r: (Outcome, LazyCell))
    ensures Extends(h, r.0.heap) && r.1 == Force(c).1
    ensures r.0.result.Failure? ==> r.0.result.error.Resolution? && r.0.result.error.bindingType == c.runtimeType
    ensures Force(c).0.Failure? ==> r.0 == Outcome(Failure(Wrapped(c.runtimeType, Force(c).0.error)), h)
  {
    var (k, c') := Force(c);
    if k.Failure? then (Outcome(Failure(Wrapped(c.runtimeType, k.error)), h), c')
    else (WrapFailure(c.runtimeType, ResolveConstructor(k.value, h)), c')
  }

  /** A cell made by the public constructor resolves exactly as the immutable
      `Lazy` binding with the same dependencies and expression. */
  lemma CellMatchesBinding(produces: Type, deps: seq<Binding>, e: Expr, h: Heap)
    ensures var c := NewLazyCell(produces, Some(deps), Some(e)).value;
            ResolveCell(c, h).0 == Resolve(Lazy(produces, deps, e), h)
  {
  }

  /** A cell is built after its first successful resolve, and resolving it again,
      in any state and even after its inputs were replaced, uses the constructor
      built the first time. */
  lemma {:induction false} BuiltOnce(c: LazyCell, h: Heap, deps2: Option<seq<Binding>>, e2: Option<Expr>, h2: Heap)
    requires !IsBuilt(c) && !c.state.Faulted?
    requires ResolveCell(c, h).0.result.Success?
    ensures var c1 := ResolveCell(c, h).1;
            IsBuilt(c1)
            && var c2 := c1.(dependencies := deps2, expression := e2);
               ResolveCell(c2, h2).1 == c2
               && ResolveCell(c2, h2).0 == ResolveCell(c1, h2).0
               && ResolveCell(c2, h2).0 == WrapFailure(c.runtimeType, ResolveConstructor(BuildConstructor(c).value, h2))
  {
    var c1 := ResolveCell(c, h).1;
    assert Force(c).0.Success?;
    var c2 := c1.(dependencies := deps2, expression := e2);
    assert Force(c2) == (Success(c1.state.binding), c2);
  }

  /** A build that failed is not retried: every later resolve reports the same
      cause, and the cell stays unbuilt. */
  lemma {:induction false} FailedBuildIsKept(c: LazyCell, h: Heap, h2: Heap)
    requires c.state.Unbuilt? && BuildConstructor(c).Failure?
    ensures var c1 := ResolveCell(c, h).1;
            !IsBuilt(c1)
            && ResolveCell(c1, h2) == (Outcome(Failure(Wrapped(c.runtimeType, BuildConstructor(c).error)), h2), c1)
  {
    var c1 := ResolveCell(c, h).1;
    assert c1.state == Faulted(BuildConstructor(c).error);
  }

  /** Unset inputs surface as a resolution error whose inner cause is an
      InvalidOperationException. */
  lemma UnsetInputsFail(c: LazyCell, h: Heap)
    requires c.state.Unbuilt? && (c.dependencies.None? || c.expression.None?)
    ensures var o := ResolveCell(c, h).0;
            o.result.Failure? && o.result.error.inner.Some? && o.result.error.inner.value.InvalidOperation?
  {
  }
}
