/** DependencyInliner: flattens a lazy binding's construction expression by
    replacing every `b[i].Resolve()` whose dependency is itself lazy with that
    dependency's own body, inlined against that dependency's own list.

    `Inline` is the corrected inliner the rest of the model uses: a `b[i]` whose
    dependency is not lazy becomes a direct `Resolve()` of that dependency.
    `InlineAsWritten` and `CompileAsWritten` keep the source's behaviour, which
    leaves such a `b[i]` in a lambda that no longer binds `b`, so compiling it
    fails. */
module Inlining {
  import opened Exceptions
  import opened Graph

  /** Inline the dependencies of `e`, whose `b[i]` refer to `deps`. Indexing
      outside the list throws, as the array access in the inliner does. */
  function Inline(e: Expr, deps: seq<Binding>): (r: Result<Expr>)
    ensures r.Success? ==> BMax(r.value) <= Max(BMax(e), MaxHeight(deps))
    decreases MaxHeight(deps), Size(e)
  {
    match e
    case New(c, args) =>
      var a :- InlineList(args, deps);
      Success(New(c, a))
    case MemberInit(c, args, fs, vs) =>
      var a :- InlineList(args, deps);
      var v :- InlineList(vs, deps);
      Success(MemberInit(c, a, fs, v))
    case Call(f, args) =>
      var a :- InlineList(args, deps);
      Success(Call(f, a))
    case DepResolve(i) =>
      if !(0 <= i < |deps|) then Failure(IndexOutOfRange)
      else if IsLazy(deps[i]) then
        HeightBelowMax(deps, i);
        LazyHeight(deps[i]);
        Inline(Body(deps[i]), Deps(deps[i]))
      else
        HeightBelowMax(deps, i);
        Success(Captured(deps[i]))
    case _ => Success(e)
  }

  function InlineList(es: seq<Expr>, deps: seq<Binding>): (r: Result<seq<Expr>>)
    ensures r.Success? ==> |r.value| == |es| && BMaxList(r.value) <= Max(BMaxList(es), MaxHeight(deps))
    decreases MaxHeight(deps), SizeList(es)
  {
    if |es| == 0 then Success([])
    else
      var x :- Inline(es[0], deps);
      var xs :- InlineList(es[1..], deps);
      Success([x] + xs)
  }

  /** The flattened body a lazy binding compiles: its own body inlined against its
      own dependencies. Everything it embeds is strictly lower than the binding. */
  function Flatten(b: Binding): (r: Result<Expr>)
    requires IsLazy(b)
    ensures r.Success? ==> BMax(r.value) < Height(b)
  {
    LazyHeight(b);
    Inline(Body(b), Deps(b))
  }

  /** The inliner as the source writes it: a `b[i]` over a non-lazy dependency
      is kept. */
  function InlineAsWritten(e: Expr, deps: seq<Binding>): (r: Result<Expr>)
    ensures r.Success? ==> BMax(r.value) <= Max(BMax(e), MaxHeight(deps))
    decreases MaxHeight(deps), Size(e)
  {
    match e
    case New(c, args) =>
      var a :- InlineListAsWritten(args, deps);
      Success(New(c, a))
    case MemberInit(c, args, fs, vs) =>
      var a :- InlineListAsWritten(args, deps);
      var v :- InlineListAsWritten(vs, deps);
      Success(MemberInit(c, a, fs, v))
    case Call(f, args) =>
      var a :- InlineListAsWritten(args, deps);
      Success(Call(f, a))
    case DepResolve(i) =>
      if !(0 <= i < |deps|) then Failure(IndexOutOfRange)
      else if IsLazy(deps[i]) then
        HeightBelowMax(deps, i);
        LazyHeight(deps[i]);
        InlineAsWritten(Body(deps[i]), Deps(deps[i]))
      else Success(e)
    case _ => Success(e)
  }

  function InlineListAsWritten(es: seq<Expr>, deps: seq<Binding>): (r: Result<seq<Expr>>)
    ensures r.Success? ==> |r.value| == |es| && BMaxList(r.value) <= Max(BMaxList(es), MaxHeight(deps))
    decreases MaxHeight(deps), SizeList(es)
  {
    if |es| == 0 then Success([])
    else
      var x :- InlineAsWritten(es[0], deps);
      var xs :- InlineListAsWritten(es[1..], deps);
      Success([x] + xs)
  }

  const UnboundParameter := "variable 'b' of type 'IBinding[]' referenced from scope '', but it is not defined"

  /** Compiling the inlined body as a parameterless lambda: a `b[i]` left in it
      refers to a parameter the lambda does not declare, which the expression
      compiler refuses. */
  function CompileAsWritten(e: Expr, deps: seq<Binding>): (r: Result<Expr>)
    ensures r.Success? ==> Refs(r.value) == []
    ensures InlineAsWritten(e, deps).Failure? ==> r == InlineAsWritten(e, deps)
    ensures InlineAsWritten(e, deps).Success? && Refs(InlineAsWritten(e, deps).value) != [] ==>
              r == Failure(InvalidOperation(UnboundParameter))
  {
    var body :- InlineAsWritten(e, deps);
    if Refs(body) != [] then Failure(InvalidOperation(UnboundParameter)) else Success(body)
  }
}
