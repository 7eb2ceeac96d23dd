/** LazyConstructorExpressionBuilder: rewrites every `Dependency(binding)` marker
    in a construction expression into `b[i].Resolve()`, appending the binding to
    a dependency list so that `i` is its position there. */
module Extraction {
  import opened Exceptions
  import opened Graph

  const ParameterMessage: string :=
    "Parameters from the given expression are not allowed. To pass in a value, make sure it is from an external source and is therefore captured as a constant expression"

  datatype Extracted = Extracted(body: Expr, deps: seq<Binding>)
  datatype ExtractedList = ExtractedList(bodies: seq<Expr>, deps: seq<Binding>)

  /** Visit `e` with the dependency list built so far. A parameter reference (the
      query's range variable, or the `b` array itself) is refused, as is a
      marker around a null binding. */
  function Extract(e: Expr, acc: seq<Binding>): (r: Result<Extracted>)
    ensures r.Success? ==> |acc| <= |r.value.deps| && r.value.deps[..|acc|] == acc
    decreases Size(e)
  {
    match e
    case New(c, args) =>
      var x :- ExtractList(args, acc);
      Success(Extracted(New(c, x.bodies), x.deps))
    case MemberInit(c, args, fs, vs) =>
      var x :- ExtractList(args, acc);
      var y :- ExtractList(vs, x.deps);
      Success(Extracted(MemberInit(c, x.bodies, fs, y.bodies), y.deps))
    case Call(f, args) =>
      var x :- ExtractList(args, acc);
      Success(Extracted(Call(f, x.bodies), x.deps))
    case Param(_) => Failure(Argument(ParameterMessage))
    case DepResolve(_) => Failure(Argument(ParameterMessage))
    case DepMark(target) =>
      if target.None? then Failure(ArgumentNull("binding"))
      else Success(Extracted(DepResolve(|acc|), acc + [target.value]))
    case _ => Success(Extracted(e, acc))
  }

  function ExtractList(es: seq<Expr>, acc: seq<Binding>): (r: Result<ExtractedList>)
    ensures r.Success? ==> |r.value.bodies| == |es|
    ensures r.Success? ==> |acc| <= |r.value.deps| && r.value.deps[..|acc|] == acc
    decreases SizeList(es)
  {
    if |es| == 0 then Success(ExtractedList([], acc))
    else
      var x :- Extract(es[0], acc);
      var xs :- ExtractList(es[1..], x.deps);
      Success(ExtractedList([x.body] + xs.bodies, xs.deps))
  }

  /** BuildLazyBindingExpression: a fresh builder, so the list starts empty. */
  function BuildLazyBindingExpression(e: Expr): (r: Result<Extracted>)
    ensures Fault(e).Some? <==> r.Failure?
    ensures r.Failure? ==> r.error == Fault(e).value
    ensures r.Success? ==> r.value.deps == Targets(e)
    ensures r.Success? ==> Refs(r.value.body) == Range(0, |r.value.deps|)
    ensures r.Success? ==> Resolved(r.value.body, r.value.deps) == Subst(e)
  {
    ExtractFromScratch(e);
    Extract(e, [])
  }

  /** The properties of a run of the builder on a fresh, empty list. */
  lemma ExtractFromScratch(e: Expr)
    ensures Fault(e).Some? <==> Extract(e, []).Failure?
    ensures Extract(e, []).Failure? ==> Extract(e, []).error == Fault(e).value
    ensures Extract(e, []).Success? ==> Extract(e, []).value.deps == Targets(e)
    ensures Extract(e, []).Success? ==> Refs(Extract(e, []).value.body) == Range(0, |Extract(e, []).value.deps|)
    ensures Extract(e, []).Success? ==> Resolved(Extract(e, []).value.body, Extract(e, []).value.deps) == Subst(e)
  {
    ExtractFault(e, []);
    if Extract(e, []).Success? {
      ExtractTargets(e, []);
      ExtractRefs(e, []);
      var x := Extract(e, []).value;
      assert x.deps[..|x.deps|] == x.deps;
      ExtractResolved(e, [], x.deps);
    }
  }

  // ------------------------------------------------ reference definitions

  /** The first node, in visiting order, that makes extraction throw. */
  function Fault(e: Expr): Option<Exception>
  {
    match e
    case New(_, args) => FaultList(args)
    case MemberInit(_, args, _, vs) => if FaultList(args).Some? then FaultList(args) else FaultList(vs)
    case Call(_, args) => FaultList(args)
    case Param(_) => Some(Argument(ParameterMessage))
    case DepResolve(_) => Some(Argument(ParameterMessage))
    case DepMark(target) => if target.None? then Some(ArgumentNull("binding")) else None
    case _ => None
  }

  function FaultList(es: seq<Expr>): Option<Exception>
  {
    if |es| == 0 then None else if Fault(es[0]).Some? then Fault(es[0]) else FaultList(es[1..])
  }

  /** The bindings of the dependency markers, in visiting order. */
  function Targets(e: Expr): seq<Binding>
  {
    match e
    case New(_, args) => TargetsList(args)
    case MemberInit(_, args, _, vs) => TargetsList(args) + TargetsList(vs)
    case Call(_, args) => TargetsList(args)
    case DepMark(target) => if target.Some? then [target.value] else []
    case _ => []
  }

  function TargetsList(es: seq<Expr>): seq<Binding>
  {
    if |es| == 0 then [] else Targets(es[0]) + TargetsList(es[1..])
  }

  /** The expression with every marker replaced by a direct `Resolve()` of its binding. */
  function Subst(e: Expr): Expr
  {
    match e
    case New(c, args) => New(c, SubstList(args))
    case MemberInit(c, args, fs, vs) => MemberInit(c, SubstList(args), fs, SubstList(vs))
    case Call(f, args) => Call(f, SubstList(args))
    case DepMark(target) => if target.Some? then Captured(target.value) else e
    case _ => e
  }

  function SubstList(es: seq<Expr>): (r: seq<Expr>)
    ensures |r| == |es|
  {
    if |es| == 0 then [] else [Subst(es[0])] + SubstList(es[1..])
  }

  /** The expression with every in-range `b[i].Resolve()` replaced by a direct
      `Resolve()` of `deps[i]`. */
  function Resolved(e: Expr, deps: seq<Binding>): Expr
  {
    match e
    case New(c, args) => New(c, ResolvedList(args, deps))
    case MemberInit(c, args, fs, vs) => MemberInit(c, ResolvedList(args, deps), fs, ResolvedList(vs, deps))
    case Call(f, args) => Call(f, ResolvedList(args, deps))
    case DepResolve(i) => if 0 <= i < |deps| then Captured(deps[i]) else e
    case _ => e
  }

  function ResolvedList(es: seq<Expr>, deps: seq<Binding>): (r: seq<Expr>)
    ensures |r| == |es|
  {
    if |es| == 0 then [] else [Resolved(es[0], deps)] + ResolvedList(es[1..], deps)
  }

  /** The integers `lo, lo + 1, ..., hi - 1`. */
  function Range(lo: int, hi: int): (r: seq<int>)
    ensures |r| == if lo <= hi then hi - lo else 0
    ensures forall k :: 0 <= k < |r| ==> r[k] == lo + k
    decreases hi - lo
  {
    if hi <= lo then [] else [lo] + Range(lo + 1, hi)
  }

  lemma RangeAppend(a: int, b: int, c: int)
    requires a <= b <= c
    ensures Range(a, b) + Range(b, c) == Range(a, c)
  {
  }

  // ------------------------------------------------------------ proofs

  /** Extraction throws exactly when the input has a parameter reference or a
      null marker, and it throws for the first such node it visits. */
  lemma {:induction false} ExtractFault(e: Expr, acc: seq<Binding>)
    ensures Extract(e, acc).Failure? <==> Fault(e).Some?
    ensures Extract(e, acc).Failure? ==> Extract(e, acc).error == Fault(e).value
    decreases Size(e)
  {
    match e
    case New(c, args) => ExtractListFault(args, acc);
    case MemberInit(c, args, fs, vs) =>
      ExtractListFault(args, acc);
      if ExtractList(args, acc).Success? {
        ExtractListFault(vs, ExtractList(args, acc).value.deps);
      }
    case Call(f, args) => ExtractListFault(args, acc);
    case _ =>
  }

  lemma {:induction false} ExtractListFault(es: seq<Expr>, acc: seq<Binding>)
    ensures ExtractList(es, acc).Failure? <==> FaultList(es).Some?
    ensures ExtractList(es, acc).Failure? ==> ExtractList(es, acc).error == FaultList(es).value
    decreases SizeList(es)
  {
    if |es| > 0 {
      ExtractFault(es[0], acc);
      if Extract(es[0], acc).Success? {
        ExtractListFault(es[1..], Extract(es[0], acc).value.deps);
      }
    }
  }

  /** The list gains exactly the marked bindings, one per marker, in visiting
      order; a binding marked twice appears twice. */
  lemma {:induction false} ExtractTargets(e: Expr, acc: seq<Binding>)
    requires Extract(e, acc).Success?
    ensures Extract(e, acc).value.deps == acc + Targets(e)
    decreases Size(e)
  {
    match e
    case New(c, args) => ExtractListTargets(args, acc);
    case MemberInit(c, args, fs, vs) =>
      ExtractListTargets(args, acc);
      var x := ExtractList(args, acc).value;
      ExtractListTargets(vs, x.deps);
      assert Extract(e, acc).value.deps == ExtractList(vs, x.deps).value.deps;
      assert acc + TargetsList(args) + TargetsList(vs) == acc + (TargetsList(args) + TargetsList(vs));
    case Call(f, args) => ExtractListTargets(args, acc);
    case _ =>
  }

  lemma {:induction false} ExtractListTargets(es: seq<Expr>, acc: seq<Binding>)
    requires ExtractList(es, acc).Success?
    ensures ExtractList(es, acc).value.deps == acc + TargetsList(es)
    decreases SizeList(es)
  {
    if |es| > 0 {
      ExtractTargets(es[0], acc);
      var x := Extract(es[0], acc).value;
      ExtractListTargets(es[1..], x.deps);
      assert ExtractList(es, acc).value.deps == ExtractList(es[1..], x.deps).value.deps;
      assert acc + Targets(es[0]) + TargetsList(es[1..]) == acc + (Targets(es[0]) + TargetsList(es[1..]));
    }
  }

  /** The emitted indices are exactly the positions appended, in order: dense,
      in range, and each used once. */
  lemma {:induction false} ExtractRefs(e: Expr, acc: seq<Binding>)
    requires Extract(e, acc).Success?
    ensures Refs(Extract(e, acc).value.body) == Range(|acc|, |Extract(e, acc).value.deps|)
    decreases Size(e)
  {
    match e
    case New(c, args) => ExtractListRefs(args, acc);
    case MemberInit(c, args, fs, vs) =>
      ExtractListRefs(args, acc);
      var x := ExtractList(args, acc).value;
      ExtractListRefs(vs, x.deps);
      RangeAppend(|acc|, |x.deps|, |Extract(e, acc).value.deps|);
    case Call(f, args) => ExtractListRefs(args, acc);
    case _ =>
  }

  lemma {:induction false} ExtractListRefs(es: seq<Expr>, acc: seq<Binding>)
    requires ExtractList(es, acc).Success?
    ensures RefsList(ExtractList(es, acc).value.bodies) == Range(|acc|, |ExtractList(es, acc).value.deps|)
    decreases SizeList(es)
  {
    if |es| > 0 {
      var r := ExtractList(es, acc).value;
      ExtractRefs(es[0], acc);
      var x := Extract(es[0], acc).value;
      ExtractListRefs(es[1..], x.deps);
      var xs := ExtractList(es[1..], x.deps).value;
      assert r.bodies == [x.body] + xs.bodies;
      assert r.bodies[0] == x.body && r.bodies[1..] == xs.bodies;
      RangeAppend(|acc|, |x.deps|, |xs.deps|);
    }
  }

  /** Putting each dependency back in place of its index gives the input with its
      markers resolved directly: the rewrite touches nothing but the markers,
      and index `i` names the binding of the `i`-th marker. */
  lemma {:induction false} ExtractResolved(e: Expr, acc: seq<Binding>, deps: seq<Binding>)
    requires Extract(e, acc).Success?
    requires var d := Extract(e, acc).value.deps; |d| <= |deps| && deps[..|d|] == d
    ensures Resolved(Extract(e, acc).value.body, deps) == Subst(e)
    decreases Size(e)
  {
    match e
    case New(c, args) => ExtractListResolved(args, acc, deps);
    case MemberInit(c, args, fs, vs) =>
      var x := ExtractList(args, acc).value;
      var y := ExtractList(vs, x.deps).value;
      assert deps[..|x.deps|] == y.deps[..|x.deps|];
      ExtractListResolved(args, acc, deps);
      ExtractListResolved(vs, x.deps, deps);
    case Call(f, args) => ExtractListResolved(args, acc, deps);
    case DepMark(target) =>
      assert deps[|acc|] == deps[..|acc| + 1][|acc|];
    case _ =>
  }

  lemma {:induction false} ExtractListResolved(es: seq<Expr>, acc: seq<Binding>, deps: seq<Binding>)
    requires ExtractList(es, acc).Success?
    requires var d := ExtractList(es, acc).value.deps; |d| <= |deps| && deps[..|d|] == d
    ensures ResolvedList(ExtractList(es, acc).value.bodies, deps) == SubstList(es)
    decreases SizeList(es)
  {
    if |es| > 0 {
      var r := ExtractList(es, acc).value;
      var x := Extract(es[0], acc).value;
      var xs := ExtractList(es[1..], x.deps).value;
      assert deps[..|x.deps|] == xs.deps[..|x.deps|];
      ExtractResolved(es[0], acc, deps);
      ExtractListResolved(es[1..], x.deps, deps);
      assert r.bodies == [x.body] + xs.bodies;
      assert r.bodies[0] == x.body && r.bodies[1..] == xs.bodies;
    }
  }
}
