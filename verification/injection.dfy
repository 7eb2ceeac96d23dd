/** InjectValuesInto and the LINQ operators that build it: an injection is an
    action over an existing object, set at most once, whose failures reach the
    caller as BindingResolutionExceptions. */
module Injection {
  import opened Exceptions
  import opened Graph
  import opened Inlining
  import opened Evaluation

  /** One statement of an injection action: `value.field = source;` or an
      expression statement run for its effect (a `throw`, a call). */
  datatype Step = Assign(field: string, source: Expr) | Run(effect: Expr)

  datatype Injection = Injection(injectedInto: Type, action: Option<seq<Step>>)

  datatype InjectOutcome = InjectOutcome(error: Option<Exception>, target: Value, heap: Heap)

  function InjectionType(inj: Injection): Type { Generic("InjectValuesInto", [inj.injectedInto]) }

  const UnfinishedMessage :=
    "This injection binding must be finished before it can be used. That means InjectionFunction must be set. Usually, it is set by calling Select() when configuring the injection."

  /** The fields an action assigns, in order. */
  function AssignedFields(steps: seq<Step>): (r: set<string>)
  {
    if |steps| == 0 then {}
    else (if steps[0].Assign? then {steps[0].field} else {}) + AssignedFields(steps[1..])
  }

  /** `o` is `target` with possibly different fields, and only fields in `fs`
      differ. */
  ghost predicate ChangesOnly(target: Value, o: Value, fs: set<string>)
  {
    && (target.Obj? <==> o.Obj?)
    && (target.Obj? ==> o == target.(fields := o.fields)
                        && forall f :: f !in fs ==> (f in o.fields <==> f in target.fields))
    && (target.Obj? ==> forall f :: f !in fs && f in o.fields ==> o.fields[f] == target.fields[f])
    && (!target.Obj? ==> o == target)
  }

  /** Running the action: statements in order; a field assignment evaluates its
      right-hand side and then stores into the target, which fails on a null
      target; the first failure stops the run and keeps what was assigned so
      far. */
  function RunSteps(steps: seq<Step>, target: Value, h: Heap): (o: InjectOutcome)
    ensures Extends(h, o.heap)
    ensures ChangesOnly(target, o.target, AssignedFields(steps))
    ensures o.error.None? && target.Obj? ==> forall f :: f in AssignedFields(steps) ==> f in o.target.fields
    ensures o.error.None? ==> target.Obj? || AssignedFields(steps) == {}
  {
    if |steps| == 0 then InjectOutcome(None, target, h)
    else
      match steps[0]
      case Assign(f, src) =>
        var v := Eval(src, [], h);
        if v.result.Failure? then InjectOutcome(Some(v.result.error), target, v.heap)
        else if !target.Obj? then InjectOutcome(Some(NullReference), target, v.heap)
        else RunSteps(steps[1..], target.(fields := target.fields[f := v.result.value]), v.heap)
      case Run(e) =>
        var v := Eval(e, [], h);
        if v.result.Failure? then InjectOutcome(Some(v.result.error), target, v.heap)
        else RunSteps(steps[1..], target, v.heap)
  }

  /** Inject: an unfinished injection is refused with a resolution error that
      has no inner cause; a BindingResolutionException from the action is
      passed on as it is, and anything else is wrapped. */
  function Inject(inj: Injection, target: Value, h: Heap): (o: InjectOutcome)
    ensures inj.action.None? ==>
              o == InjectOutcome(Some(Resolution(UnfinishedMessage, InjectionType(inj), None)), target, h)
    ensures inj.action.Some? ==>
              var run := RunSteps(inj.action.value, target, h);
              && o.target == run.target && o.heap == run.heap
              && (o.error.None? <==> run.error.None?)
              && (run.error.Some? && run.error.value.Resolution? ==> o.error == run.error)
              && (run.error.Some? && !run.error.value.Resolution? ==>
                    o.error == Some(Wrapped(InjectionType(inj), run.error.value)))
    ensures o.error.Some? ==> o.error.value.Resolution?
  {
    match inj.action
    case None => InjectOutcome(Some(Resolution(UnfinishedMessage, InjectionType(inj), None)), target, h)
    case Some(steps) =>
      var run := RunSteps(steps, target, h);
      if run.error.Some? && !run.error.value.Resolution? then
        run.(error := Some(Wrapped(InjectionType(inj), run.error.value)))
      else run
  }

  /** The InjectionFunction setter: takes effect only while no action is set. */
  function SetAction(inj: Injection, action: Option<seq<Step>>): (r: Injection)
    ensures r.injectedInto == inj.injectedInto
    ensures inj.action.Some? ==> r == inj
    ensures inj.action.None? ==> r.action == action
  {
    if inj.action.None? then inj.(action := action) else inj
  }

  /** InjectExtensions.Where: a fresh injection, not yet finished. The binding
      and the type-selecting expression play no part. */
  function Where(injectedInto: Type): (r: Injection)
    ensures r.injectedInto == injectedInto && r.action.None?
  {
    Injection(injectedInto, None)
  }

  /** InjectExtensions.Select: sets the action through the set-once setter and
      returns the same injection; called on null it dereferences null. */
  function Select(inj: Option<Injection>, action: Option<seq<Step>>): (r: Result<Injection>)
    ensures inj.None? <==> r.Failure?
    ensures inj.None? ==> r.error == NullReference
    ensures r.Success? ==> r.value.injectedInto == inj.value.injectedInto
    ensures r.Success? && inj.value.action.Some? ==> r.value == inj.value
    ensures r.Success? && inj.value.action.None? ==> r.value.action == action
  {
    if inj.None? then Failure(NullReference) else Success(SetAction(inj.value, action))
  }

  // ------------------------------------------------------------ properties

  /** The first action set is the one kept; a null action leaves the injection
      unfinished, open to a later Select. */
  lemma FirstActionWins(t: Type, f: seq<Step>, g: Option<seq<Step>>)
    ensures Select(Some(Select(Some(Where(t)), Some(f)).value), g) == Success(Injection(t, Some(f)))
    ensures Select(Some(Select(Some(Where(t)), None).value), g) == Success(Injection(t, g))
  {
  }

  /** A completed run assigns exactly the fields the action names: each of them
      is present afterwards, every other field is as it was. */
  lemma {:induction false} SuccessfulInjectAssignsFields(inj: Injection, target: Value, h: Heap)
    requires inj.action.Some? && target.Obj?
    requires Inject(inj, target, h).error.None?
    ensures var o := Inject(inj, target, h).target;
            && o.Obj? && o.id == target.id && o.cls == target.cls
            && (forall f :: f in AssignedFields(inj.action.value) ==> f in o.fields)
            && (forall f :: f !in AssignedFields(inj.action.value) && f in o.fields ==>
                   f in target.fields && o.fields[f] == target.fields[f])
  {
  }

  /** `value.Sample = sampleBinding.Resolve(); value.Int = intBinding.Resolve();`
      with bindings selecting a fixed Sample and the number 10. */
  lemma {:induction false} InjectsTwoValues(t: Type, s: Value, needs: Value, h: Heap)
    requires needs.Obj?
    ensures var sample := Lazy(Named("ISample"), [], Const(s));
            var number := Lazy(Named("int"), [], Const(Int(10)));
            var inj := Select(Some(Where(t)), Some([Assign("Sample", Captured(sample)), Assign("Int", Captured(number))])).value;
            var o := Inject(inj, needs, h);
            o.error.None? && o.target == needs.(fields := needs.fields["Sample" := s]["Int" := Int(10)])
  {
    var sample := Lazy(Named("ISample"), [], Const(s));
    var number := Lazy(Named("int"), [], Const(Int(10)));
    var steps := [Assign("Sample", Captured(sample)), Assign("Int", Captured(number))];
    assert Inline(Const(s), []) == Success(Const(s));
    assert Flatten(sample) == Success(Const(s));
    assert Resolve(sample, h) == Outcome(Success(s), h);
    assert Eval(Captured(sample), [], h) == Outcome(Success(s), h);
    assert Inline(Const(Int(10)), []) == Success(Const(Int(10)));
    assert Flatten(number) == Success(Const(Int(10)));
    assert Resolve(number, h) == Outcome(Success(Int(10)), h);
    assert Eval(Captured(number), [], h) == Outcome(Success(Int(10)), h);
    var n1 := needs.(fields := needs.fields["Sample" := s]);
    var n2 := n1.(fields := n1.fields["Int" := Int(10)]);
    assert steps[1..][1..] == [];
    assert RunSteps(steps[1..][1..], n2, h) == InjectOutcome(None, n2, h);
    assert RunSteps(steps[1..], n1, h) == InjectOutcome(None, n2, h);
    assert RunSteps(steps, needs, h) == InjectOutcome(None, n2, h);
  }

  /** `value.Sample = null; throw new Exception();`: the failure is wrapped
      once, and the assignment made before it stays. */
  lemma {:induction false} FailureKeepsEarlierAssignments(t: Type, x: Exception, needs: Value, h: Heap)
    requires needs.Obj? && !x.Resolution?
    ensures var inj := Select(Some(Where(t)), Some([Assign("Sample", Const(Null)), Run(Throw(x))])).value;
            var o := Inject(inj, needs, h);
            o.error == Some(Wrapped(Generic("InjectValuesInto", [t]), x))
            && o.target == needs.(fields := needs.fields["Sample" := Null])
  {
    var steps := [Assign("Sample", Const(Null)), Run(Throw(x))];
    var n1 := needs.(fields := needs.fields["Sample" := Null]);
    assert steps[1..] == [Run(Throw(x))];
    assert RunSteps(steps[1..], n1, h) == InjectOutcome(Some(x), n1, h);
    assert RunSteps(steps, needs, h) == InjectOutcome(Some(x), n1, h);
  }

  /** An action that throws a BindingResolutionException has that exact
      exception rethrown, not wrapped again. */
  lemma {:induction false} ResolutionErrorIsRethrown(t: Type, ex: Exception, needs: Value, h: Heap)
    requires ex.Resolution? && needs.Obj?
    ensures var inj := Select(Some(Where(t)), Some([Assign("Sample", Const(Null)), Run(Throw(ex))])).value;
            Inject(inj, needs, h).error == Some(ex)
  {
    var steps := [Assign("Sample", Const(Null)), Run(Throw(ex))];
    assert steps[1..] == [Run(Throw(ex))];
    var n1 := needs.(fields := needs.fields["Sample" := Null]);
    assert RunSteps(steps[1..], n1, h) == InjectOutcome(Some(ex), n1, h);
    assert RunSteps(steps, needs, h).error == Some(ex);
  }
}
