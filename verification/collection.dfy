/** BindingCollection: bindings grouped by the type they are bound to, in a
    multi-value dictionary. The dictionary is a map from type to a non-empty
    list of bindings plus the order in which the types were first added;
    enumeration walks the types in that order and each list in its own. */
module Collection {
  import opened Exceptions
  import opened Graph
  import opened Inlining
  import opened Evaluation

  datatype BindingCollection = BindingCollection(types: seq<Type>, buckets: map<Type, seq<Binding>>)

  /** The type a binding is registered under: the type it is bound to. */
  function BindingType(b: Binding): Type { b.produces }

  predicate Distinct(ts: seq<Type>)
  {
    forall i, j :: 0 <= i < j < |ts| ==> ts[i] != ts[j]
  }

  /** The dictionary's invariant: one entry per type, listed once in order, no
      empty lists, every binding filed under its own type. */
  ghost predicate Valid(c: BindingCollection)
  {
    Distinct(c.types) && Listed(c) && NoEmptyLists(c) && Filed(c)
  }

  ghost predicate Listed(c: BindingCollection)
  {
    forall t :: t in c.buckets <==> t in c.types
  }

  ghost predicate NoEmptyLists(c: BindingCollection)
  {
    forall t :: t in c.buckets ==> c.buckets[t] != []
  }

  ghost predicate Filed(c: BindingCollection)
  {
    forall t, b :: t in c.buckets && b in c.buckets[t] ==> BindingType(b) == t
  }

  /** The lists of `ts`, one after the other. */
  function Concat(ts: seq<Type>, m: map<Type, seq<Binding>>): seq<Binding>
  {
    if |ts| == 0 then [] else (if ts[0] in m then m[ts[0]] else []) + Concat(ts[1..], m)
  }

  function Count(ts: seq<Type>, m: map<Type, seq<Binding>>): nat
  {
    if |ts| == 0 then 0 else (if ts[0] in m then |m[ts[0]]| else 0) + Count(ts[1..], m)
  }

  /** The collection's enumerator: every binding, grouped by type. */
  function Enumerate(c: BindingCollection): seq<Binding> { Concat(c.types, c.buckets) }

  function TypeCount(c: BindingCollection): nat { |c.types| }

  /** TypeCount is the dictionary's Count: one per key. */
  lemma TypeCountIsKeyCount(c: BindingCollection)
    requires Valid(c)
    ensures TypeCount(c) == |c.buckets.Keys|
  {
    DistinctCount(c.types);
    assert c.buckets.Keys == set u | u in c.types;
  }

  lemma {:induction false} DistinctCount(ts: seq<Type>)
    requires Distinct(ts)
    ensures |set u | u in ts| == |ts|
  {
    if |ts| > 0 {
      assert Distinct(ts[1..]) by {
        forall i, j | 0 <= i < j < |ts[1..]| ensures ts[1..][i] != ts[1..][j] {
          assert ts[1..][i] == ts[i + 1] && ts[1..][j] == ts[j + 1];
        }
      }
      DistinctCount(ts[1..]);
      assert ts == [ts[0]] + ts[1..];
      assert (set u | u in ts) == {ts[0]} + (set u | u in ts[1..]);
      assert ts[0] !in (set u | u in ts[1..]);
    }
  }

  /** The sum of the list lengths; it is the number of bindings enumerated. */
  function BindingCount(c: BindingCollection): (n: nat)
    ensures n == |Enumerate(c)|
  {
    CountIsLength(c.types, c.buckets);
    Count(c.types, c.buckets)
  }

  function Empty(): (c: BindingCollection)
    ensures Valid(c) && TypeCount(c) == 0 && BindingCount(c) == 0
  {
    BindingCollection([], map[])
  }

  // ------------------------------------------------------------ building

  /** The dictionary's Add: append to the type's list, making the entry if the
      type is new. */
  function AddOne(c: BindingCollection, b: Binding): (r: BindingCollection)
    ensures var t := BindingType(b);
            && t in r.buckets
            && r.buckets[t] == (if t in c.buckets then c.buckets[t] else []) + [b]
            && (forall u :: u != t ==> (u in r.buckets <==> u in c.buckets))
            && (forall u :: u != t && u in c.buckets ==> r.buckets[u] == c.buckets[u])
            && r.types == c.types + (if t in c.buckets then [] else [t])
  {
    var t := BindingType(b);
    if t in c.buckets then BindingCollection(c.types, c.buckets[t := c.buckets[t] + [b]])
    else BindingCollection(c.types + [t], c.buckets[t := [b]])
  }

  /** Add: refuses a null binding. */
  function Add(c: BindingCollection, b: Option<Binding>): (r: Result<BindingCollection>)
    ensures b.None? <==> r.Failure?
    ensures b.None? ==> r.error == ArgumentNull("binding")
    ensures r.Success? ==> r.value == AddOne(c, b.value)
  {
    if b.None? then Failure(ArgumentNull("binding")) else Success(AddOne(c, b.value))
  }

  /** Add each binding in order. */
  function AddAll(c: BindingCollection, bs: seq<Binding>): BindingCollection
    decreases |bs|
  {
    if |bs| == 0 then c else AddAll(AddOne(c, bs[0]), bs[1..])
  }

  /** AddRange: refuses a null list; a null element stops the loop with the
      bindings before it already added. */
  function AddRange(c: BindingCollection, bs: Option<seq<Option<Binding>>>): (r: (Option<Exception>, BindingCollection))
    ensures bs.None? ==> r == (Some(ArgumentNull("bindings")), c)
    ensures bs.Some? && NoNulls(bs.value) ==> r == (None, AddAll(c, Present(bs.value)))
    ensures bs.Some? && !NoNulls(bs.value) ==>
              r == (Some(ArgumentNull("binding")), AddAll(c, Present(bs.value[..FirstNull(bs.value)])))
    decreases if bs.Some? then |bs.value| else 0
  {
    if bs.None? then (Some(ArgumentNull("bindings")), c)
    else if |bs.value| == 0 then (None, c)
    else if bs.value[0].None? then
      assert bs.value[..0] == [];
      (Some(ArgumentNull("binding")), c)
    else
      AddRangeStep(c, bs.value);
      AddRange(AddOne(c, bs.value[0].value), Some(bs.value[1..]))
  }

  /** The position of the first null in a list that holds one. */
  function FirstNull(bs: seq<Option<Binding>>): (k: nat)
    requires !NoNulls(bs)
    ensures k < |bs| && bs[k].None? && NoNulls(bs[..k])
  {
    if bs[0].None? then 0
    else
      var i :| 0 <= i < |bs| && bs[i].None?;
      assert bs[1..][i - 1].None?;
      var k := FirstNull(bs[1..]);
      assert bs[..k + 1] == [bs[0]] + bs[1..][..k];
      k + 1
  }

  /** One step of AddRange: what is added before the first null, seen from the
      list's tail. */
  lemma AddRangeStep(c: BindingCollection, bs: seq<Option<Binding>>)
    requires |bs| > 0 && bs[0].Some?
    ensures NoNulls(bs) ==> NoNulls(bs[1..]) && AddAll(c, Present(bs)) == AddAll(AddOne(c, bs[0].value), Present(bs[1..]))
    ensures !NoNulls(bs) ==> !NoNulls(bs[1..])
    ensures !NoNulls(bs) ==>
              AddAll(c, Present(bs[..FirstNull(bs)]))
                == AddAll(AddOne(c, bs[0].value), Present(bs[1..][..FirstNull(bs[1..])]))
  {
    if NoNulls(bs) {
      assert NoNulls(bs[1..]) by {
        forall i | 0 <= i < |bs[1..]| ensures bs[1..][i].Some? { assert bs[1..][i] == bs[i + 1]; }
      }
      PresentCons(bs);
    } else {
      var i :| 0 <= i < |bs| && bs[i].None?;
      assert bs[1..][i - 1].None?;
      var k := FirstNull(bs[1..]);
      assert FirstNull(bs) == k + 1;
      var pre := bs[..k + 1];
      assert pre == [bs[0]] + bs[1..][..k];
      assert pre[1..] == bs[1..][..k];
      PresentCons(pre);
    }
  }

  lemma PresentCons(bs: seq<Option<Binding>>)
    requires |bs| > 0 && NoNulls(bs)
    ensures NoNulls(bs[1..])
    ensures forall c :: AddAll(c, Present(bs)) == AddAll(AddOne(c, bs[0].value), Present(bs[1..]))
  {
    assert NoNulls(bs[1..]) by {
      forall i | 0 <= i < |bs[1..]| ensures bs[1..][i].Some? { assert bs[1..][i] == bs[i + 1]; }
    }
    var p := Present(bs);
    assert p[1..] == Present(bs[1..]);
  }

  predicate NoNulls(bs: seq<Option<Binding>>)
  {
    forall i :: 0 <= i < |bs| ==> bs[i].Some?
  }

  function Present(bs: seq<Option<Binding>>): (r: seq<Binding>)
    requires NoNulls(bs)
    ensures |r| == |bs| && forall i :: 0 <= i < |bs| ==> r[i] == bs[i].value
  {
    if |bs| == 0 then [] else [bs[0].value] + Present(bs[1..])
  }

  /** The types of `bs`, each once, in order of first occurrence. */
  function FirstTypes(bs: seq<Binding>): (r: seq<Type>)
    ensures Distinct(r)
    ensures forall t :: t in r <==> exists b :: b in bs && BindingType(b) == t
  {
    if |bs| == 0 then []
    else
      var d := FirstTypes(bs[..|bs| - 1]);
      var t := BindingType(bs[|bs| - 1]);
      assert forall b :: b in bs <==> b in bs[..|bs| - 1] || b == bs[|bs| - 1] by {
        assert bs == bs[..|bs| - 1] + [bs[|bs| - 1]];
      }
      if t in d then d else d + [t]
  }

  /** The bindings of `bs` bound to `t`, in order. */
  function OfType(bs: seq<Binding>, t: Type): seq<Binding>
  {
    if |bs| == 0 then []
    else OfType(bs[..|bs| - 1], t) + (if BindingType(bs[|bs| - 1]) == t then [bs[|bs| - 1]] else [])
  }

  /** The collection the constructor builds from `bindings.GroupBy(BindingType)`. */
  function Grouped(bs: seq<Binding>): BindingCollection
  {
    BindingCollection(FirstTypes(bs), map t | t in FirstTypes(bs) :: OfType(bs, t))
  }

  /** The constructor: a null list gives an empty collection; a null element
      makes the grouping key selector dereference null. */
  function FromSeq(bindings: Option<seq<Option<Binding>>>): (r: Result<BindingCollection>)
    ensures bindings.None? ==> r == Success(Empty())
    ensures bindings.Some? && !NoNulls(bindings.value) ==> r == Failure(NullReference)
    ensures bindings.Some? && NoNulls(bindings.value) ==> r == Success(Grouped(Present(bindings.value)))
  {
    if bindings.None? then Success(Empty())
    else if !NoNulls(bindings.value) then Failure(NullReference)
    else Success(Grouped(Present(bindings.value)))
  }

  // ------------------------------------------------------------ removing

  /** The position of the first occurrence of `x` in `s`. */
  function FirstIndex(s: seq<Binding>, x: Binding): (i: nat)
    requires x in s
    ensures i < |s| && s[i] == x && x !in s[..i]
  {
    if s[0] == x then 0
    else
      assert s == [s[0]] + s[1..];
      var i := FirstIndex(s[1..], x);
      assert s[..i + 1] == [s[0]] + s[1..][..i];
      i + 1
  }

  /** `s` without its first occurrence of `x` (List.Remove): the bindings
      before and after it keep their order. */
  function RemoveFirst(s: seq<Binding>, x: Binding): (r: seq<Binding>)
    ensures x in s ==> multiset(r) + multiset{x} == multiset(s) && |r| == |s| - 1
    ensures x !in s ==> r == s
    ensures forall b :: b in r ==> b in s
  {
    if |s| == 0 then []
    else if s[0] == x then
      assert s == [s[0]] + s[1..];
      s[1..]
    else
      assert s == [s[0]] + s[1..];
      [s[0]] + RemoveFirst(s[1..], x)
  }

  /** Only the first equal binding goes; the others keep their order. */
  lemma {:induction false} RemoveFirstKeepsOrder(s: seq<Binding>, x: Binding)
    requires x in s
    ensures RemoveFirst(s, x) == s[..FirstIndex(s, x)] + s[FirstIndex(s, x) + 1..]
  {
    if s[0] != x {
      var i := FirstIndex(s[1..], x);
      assert FirstIndex(s, x) == i + 1;
      RemoveFirstKeepsOrder(s[1..], x);
      SpliceCons(s, i);
    }
  }

  /** Cutting element i out of the tail is cutting element i + 1 out of the list. */
  lemma SpliceCons<T>(s: seq<T>, i: nat)
    requires i + 1 < |s|
    ensures [s[0]] + (s[1..][..i] + s[1..][i + 1..]) == s[..i + 1] + s[i + 2..]
  {
    assert [s[0]] + s[1..][..i] == s[..i + 1];
  }

  function RemoveType(ts: seq<Type>, t: Type): (r: seq<Type>)
    ensures forall u :: u in r <==> u in ts && u != t
    ensures Distinct(ts) ==> Distinct(r)
  {
    if |ts| == 0 then []
    else
      var rest := RemoveType(ts[1..], t);
      if ts[0] == t then rest
      else
        assert Distinct(ts) ==> ts[0] !in ts[1..];
        [ts[0]] + rest
  }

  /** Remove: a null binding, or one not in the collection, removes nothing and
      answers false; otherwise the first equal binding under its type goes, and
      the type goes too when its list empties. */
  function Remove(c: BindingCollection, b: Option<Binding>): (r: (bool, BindingCollection))
    ensures b.None? ==> !r.0
    ensures r.0 <==> b.Some? && BindingType(b.value) in c.buckets && b.value in c.buckets[BindingType(b.value)]
    ensures !r.0 ==> r.1 == c
    ensures r.0 ==>
              var t := BindingType(b.value);
              var s := c.buckets[t];
              var i := FirstIndex(s, b.value);
              && (forall u :: u != t ==> (u in r.1.buckets <==> u in c.buckets))
              && (forall u :: u != t && u in c.buckets ==> r.1.buckets[u] == c.buckets[u])
              && (t in r.1.buckets <==> |s| > 1)
              && (t in r.1.buckets ==> r.1.buckets[t] == s[..i] + s[i + 1..] && r.1.types == c.types)
              && (t !in r.1.buckets ==> forall u :: u in r.1.types <==> u in c.types && u != t)
  {
    if b.None? then (false, c)
    else
      var t := BindingType(b.value);
      if t !in c.buckets || b.value !in c.buckets[t] then (false, c)
      else
        var rest := RemoveFirst(c.buckets[t], b.value);
        RemoveFirstKeepsOrder(c.buckets[t], b.value);
        if rest == [] then (true, BindingCollection(RemoveType(c.types, t), c.buckets - {t}))
        else (true, BindingCollection(c.types, c.buckets[t := rest]))
  }

  // ------------------------------------------------------------ resolving

  const NoElements := "Sequence contains no elements"

  /** Resolve(Type): refuses a null type; a type with no bindings is reported
      as a resolution error for that type over a KeyNotFoundException; otherwise
      the first binding registered for the type is resolved. */
  function ResolveType(c: BindingCollection, t: Option<Type>, h: Heap): (o: Outcome)
    ensures Extends(h, o.heap)
    ensures t.None? ==> o == Outcome(Failure(ArgumentNull("type")), h)
    ensures t.Some? && t.value !in c.buckets ==> o == Outcome(Failure(Wrapped(t.value, KeyNotFound)), h)
    ensures Valid(c) && t.Some? && t.value in c.buckets ==> o == Resolve(c.buckets[t.value][0], h)
    ensures Valid(c) && t.Some? && o.result.Failure? ==> o.result.error.Resolution?
  {
    if t.None? then Outcome(Failure(ArgumentNull("type")), h)
    else if t.value !in c.buckets then Outcome(Failure(Wrapped(t.value, KeyNotFound)), h)
    else if c.buckets[t.value] == [] then Outcome(Failure(InvalidOperation(NoElements)), h)
    else Resolve(c.buckets[t.value][0], h)
  }

  /** The calls `b.Resolve()`, one per binding, in order: the expressions the
      compiled `Select(b => b.Resolve()).ToArray()` runs. */
  function Captures(bs: seq<Binding>): (r: seq<Expr>)
    ensures |r| == |bs| && forall i :: 0 <= i < |bs| ==> r[i] == Captured(bs[i])
  {
    if |bs| == 0 then [] else [Captured(bs[0])] + Captures(bs[1..])
  }

  /** Resolve each binding in order; the first failure stops the rest. The
      outcome is that of evaluating the resolve calls as an array initialiser,
      left to right. */
  function ResolveEach(bs: seq<Binding>, h: Heap): (o: ListOutcome)
    ensures o == EvalList(Captures(bs), [], h)
    ensures Extends(h, o.heap)
    ensures o.result.Success? ==> |o.result.value| == |bs|
    ensures o.result.Failure? ==> o.result.error.Resolution?
    ensures |bs| > 0 && Resolve(bs[0], h).result.Failure? ==> o == ListOutcome(Failure(Resolve(bs[0], h).result.error), Resolve(bs[0], h).heap)
    ensures |bs| > 0 && o.result.Success? ==> Resolve(bs[0], h).result == Success(o.result.value[0])
  {
    if |bs| == 0 then ListOutcome(Success([]), h)
    else
      var x := Resolve(bs[0], h);
      assert Captures(bs)[1..] == Captures(bs[1..]);
      assert Eval(Captured(bs[0]), [], h) == x;
      if x.result.Failure? then ListOutcome(Failure(x.result.error), x.heap)
      else
        var xs := ResolveEach(bs[1..], x.heap);
        if xs.result.Failure? then xs
        else ListOutcome(Success([x.result.value] + xs.result.value), xs.heap)
  }

  /** ResolveAll(Type): the same refusals as Resolve, then every binding for
      the type, in the order they were added. */
  function ResolveAll(c: BindingCollection, t: Option<Type>, h: Heap): (o: ListOutcome)
    ensures Extends(h, o.heap)
    ensures t.None? ==> o == ListOutcome(Failure(ArgumentNull("type")), h)
    ensures t.Some? && t.value !in c.buckets ==> o == ListOutcome(Failure(Wrapped(t.value, KeyNotFound)), h)
    ensures t.Some? && t.value in c.buckets ==> o == EvalList(Captures(c.buckets[t.value]), [], h)
    ensures t.Some? && t.value in c.buckets && o.result.Success? ==> |o.result.value| == |c.buckets[t.value]|
    ensures t.Some? && o.result.Failure? ==> o.result.error.Resolution?
  {
    if t.None? then ListOutcome(Failure(ArgumentNull("type")), h)
    else if t.value !in c.buckets then ListOutcome(Failure(Wrapped(t.value, KeyNotFound)), h)
    else ResolveEach(c.buckets[t.value], h)
  }

  /** Resolve<T>(): `typeof(T)` is never null, so no ArgumentNullException:
      a missing type, or a failing binding, is a resolution error. */
  function ResolveOf(c: BindingCollection, t: Type, h: Heap): (o: Outcome)
    ensures Extends(h, o.heap)
    ensures t !in c.buckets ==> o == Outcome(Failure(Wrapped(t, KeyNotFound)), h)
    ensures Valid(c) && t in c.buckets ==> o == Resolve(c.buckets[t][0], h)
    ensures Valid(c) && o.result.Failure? ==> o.result.error.Resolution?
  {
    ResolveType(c, Some(t), h)
  }

  /** ResolveAll<T>(): as ResolveAll(Type) with a type that is never null, so
      every failure is a resolution error. */
  function ResolveAllOf(c: BindingCollection, t: Type, h: Heap): (o: ListOutcome)
    ensures Extends(h, o.heap)
    ensures t !in c.buckets ==> o == ListOutcome(Failure(Wrapped(t, KeyNotFound)), h)
    ensures t in c.buckets ==> o == EvalList(Captures(c.buckets[t]), [], h)
    ensures o.result.Failure? ==> o.result.error.Resolution?
  {
    ResolveAll(c, Some(t), h)
  }

  // ------------------------------------------------------------ proofs

  /** Add keeps the invariant and adds exactly one binding to the enumeration. */
  lemma AddOneKeepsValid(c: BindingCollection, b: Binding)
    requires Valid(c)
    ensures Valid(AddOne(c, b))
    ensures TypeCount(AddOne(c, b)) == TypeCount(c) + (if BindingType(b) in c.buckets then 0 else 1)
    ensures multiset(Enumerate(AddOne(c, b))) == multiset(Enumerate(c)) + multiset{b}
    ensures BindingCount(AddOne(c, b)) == BindingCount(c) + 1
  {
    AddOneShape(c, b);
    AddOneFiled(c, b);
    AddOneEnumerates(c, b);
  }

  lemma AddOneShape(c: BindingCollection, b: Binding)
    requires Distinct(c.types) && Listed(c) && NoEmptyLists(c)
    ensures var r := AddOne(c, b); Distinct(r.types) && Listed(r) && NoEmptyLists(r)
  {
    var t := BindingType(b);
    var r := AddOne(c, b);
    if t !in c.buckets {
      assert t !in c.types;
      forall i, j | 0 <= i < j < |r.types| ensures r.types[i] != r.types[j] {
        if j == |c.types| {
          assert r.types[i] == c.types[i];
        }
      }
    }
  }

  lemma AddOneFiled(c: BindingCollection, b: Binding)
    requires Filed(c)
    ensures Filed(AddOne(c, b))
  {
    var t := BindingType(b);
    var r := AddOne(c, b);
    forall u, x | u in r.buckets && x in r.buckets[u] ensures BindingType(x) == u {
      if u == t {
        var before := if t in c.buckets then c.buckets[t] else [];
        assert x in before + [b];
        assert x in before || x == b;
      }
    }
  }

  lemma AddOneEnumerates(c: BindingCollection, b: Binding)
    requires Distinct(c.types) && Listed(c)
    ensures multiset(Enumerate(AddOne(c, b))) == multiset(Enumerate(c)) + multiset{b}
    ensures BindingCount(AddOne(c, b)) == BindingCount(c) + 1
  {
    var t := BindingType(b);
    var r := AddOne(c, b);
    if t in c.buckets {
      ConcatReplace(c.types, c.buckets, t, c.buckets[t] + [b]);
      assert multiset(c.buckets[t] + [b]) == multiset(c.buckets[t]) + multiset{b};
      Cancel(multiset(Enumerate(r)), multiset(Enumerate(c)) + multiset{b}, multiset(c.buckets[t]));
    } else {
      assert t !in c.types;
      ConcatSnoc(c.types, c.buckets, t, [b]);
      assert Enumerate(r) == Enumerate(c) + [b];
    }
    assert multiset(Enumerate(r)) == multiset(Enumerate(c)) + multiset{b};
    OneMore(c, r, b);
  }

  /** Counting follows the enumeration: one binding more is one more counted. */
  lemma OneMore(c: BindingCollection, r: BindingCollection, b: Binding)
    requires multiset(Enumerate(r)) == multiset(Enumerate(c)) + multiset{b}
    ensures BindingCount(r) == BindingCount(c) + 1
  {
    calc {
      BindingCount(r);
      |multiset(Enumerate(r))|;
      |multiset(Enumerate(c))| + |multiset{b}|;
      BindingCount(c) + 1;
    }
  }

  /** Remove answers true exactly for an enumerated binding, keeps the
      invariant, and takes exactly one copy of the binding out. */
  lemma RemoveKeepsValid(c: BindingCollection, b: Option<Binding>)
    requires Valid(c)
    ensures var r := Remove(c, b);
            && Valid(r.1)
            && (r.0 <==> b.Some? && b.value in Enumerate(c))
            && (r.0 ==> multiset(Enumerate(r.1)) + multiset{b.value} == multiset(Enumerate(c)))
            && (r.0 ==> BindingCount(r.1) == BindingCount(c) - 1)
  {
    var r := Remove(c, b);
    if b.Some? {
      InEnumerate(c, b.value);
    }
    if r.0 {
      var x := b.value;
      var t := BindingType(x);
      if RemoveFirst(c.buckets[t], x) == [] {
        RemoveLast(c, t, x);
      } else {
        RemoveOneOfMany(c, t, x);
      }
      OneMore(r.1, c, x);
    }
  }

  /** Removing a type's only binding drops the type. */
  lemma RemoveLast(c: BindingCollection, t: Type, x: Binding)
    requires Valid(c) && t in c.buckets && x in c.buckets[t] && RemoveFirst(c.buckets[t], x) == []
    ensures var r := BindingCollection(RemoveType(c.types, t), c.buckets - {t});
            Valid(r) && multiset(Enumerate(r)) + multiset{x} == multiset(Enumerate(c))
  {
    ConcatDrop(c.types, c.buckets, t);
    assert multiset(c.buckets[t]) == multiset{x};
  }

  /** Removing one of several bindings keeps the type. */
  lemma RemoveOneOfMany(c: BindingCollection, t: Type, x: Binding)
    requires Valid(c) && t in c.buckets && x in c.buckets[t] && RemoveFirst(c.buckets[t], x) != []
    ensures var r := BindingCollection(c.types, c.buckets[t := RemoveFirst(c.buckets[t], x)]);
            Valid(r) && multiset(Enumerate(r)) + multiset{x} == multiset(Enumerate(c))
  {
    var rest := RemoveFirst(c.buckets[t], x);
    var r := BindingCollection(c.types, c.buckets[t := rest]);
    ConcatReplace(c.types, c.buckets, t, rest);
    assert multiset(Enumerate(r)) + multiset{x} + multiset(rest) == multiset(Enumerate(c)) + multiset(rest);
    Cancel(multiset(Enumerate(r)) + multiset{x}, multiset(Enumerate(c)), multiset(rest));
    forall u, y | u in r.buckets && y in r.buckets[u] ensures BindingType(y) == u {
      if u == t {
        assert y in c.buckets[t];
      }
    }
  }

  lemma Cancel(a: multiset<Binding>, b: multiset<Binding>, x: multiset<Binding>)
    requires a + x == b + x
    ensures a == b
  {
    forall e ensures a[e] == b[e] {
      assert (a + x)[e] == (b + x)[e];
    }
  }

  /** Adding a list keeps the invariant and adds exactly its bindings. */
  lemma AddAllKeepsValid(c: BindingCollection, bs: seq<Binding>)
    requires Valid(c)
    ensures Valid(AddAll(c, bs))
    ensures multiset(Enumerate(AddAll(c, bs))) == multiset(Enumerate(c)) + multiset(bs)
    ensures BindingCount(AddAll(c, bs)) == BindingCount(c) + |bs|
  {
    AddAllValid(c, bs);
    AddAllEnumerates(c, bs);
    var r := AddAll(c, bs);
    calc {
      BindingCount(r);
      |multiset(Enumerate(r))|;
      |multiset(Enumerate(c))| + |multiset(bs)|;
      BindingCount(c) + |bs|;
    }
  }

  lemma {:induction false} AddAllValid(c: BindingCollection, bs: seq<Binding>)
    requires Valid(c)
    ensures Valid(AddAll(c, bs))
    decreases |bs|
  {
    if |bs| > 0 {
      AddOneKeepsValid(c, bs[0]);
      AddAllValid(AddOne(c, bs[0]), bs[1..]);
    }
  }

  lemma {:induction false} AddAllEnumerates(c: BindingCollection, bs: seq<Binding>)
    requires Valid(c)
    ensures multiset(Enumerate(AddAll(c, bs))) == multiset(Enumerate(c)) + multiset(bs)
    decreases |bs|
  {
    if |bs| > 0 {
      var c' := AddOne(c, bs[0]);
      AddOneKeepsValid(c, bs[0]);
      AddAllEnumerates(c', bs[1..]);
      AddAllStep(Enumerate(c), Enumerate(c'), Enumerate(AddAll(c, bs)), bs);
    }
  }

  lemma AddAllStep(before: seq<Binding>, middle: seq<Binding>, after: seq<Binding>, bs: seq<Binding>)
    requires |bs| > 0
    requires multiset(middle) == multiset(before) + multiset{bs[0]}
    requires multiset(after) == multiset(middle) + multiset(bs[1..])
    ensures multiset(after) == multiset(before) + multiset(bs)
  {
    assert bs == [bs[0]] + bs[1..];
    assert multiset(bs) == multiset{bs[0]} + multiset(bs[1..]);
  }

  lemma {:induction false} CountIsLength(ts: seq<Type>, m: map<Type, seq<Binding>>)
    ensures Count(ts, m) == |Concat(ts, m)|
  {
    if |ts| > 0 {
      CountIsLength(ts[1..], m);
    }
  }

  /** Maps that agree on `ts` concatenate alike. */
  lemma {:induction false} ConcatAgree(ts: seq<Type>, m: map<Type, seq<Binding>>, m': map<Type, seq<Binding>>)
    requires forall u :: u in ts ==> (u in m <==> u in m') && (u in m ==> m[u] == m'[u])
    ensures Concat(ts, m) == Concat(ts, m')
  {
    if |ts| > 0 {
      ConcatAgree(ts[1..], m, m');
    }
  }

  /** Replacing one list changes the enumeration by exactly that list. */
  lemma {:induction false} ConcatReplace(ts: seq<Type>, m: map<Type, seq<Binding>>, t: Type, bs: seq<Binding>)
    requires Distinct(ts) && t in ts && t in m
    ensures multiset(Concat(ts, m[t := bs])) + multiset(m[t]) == multiset(Concat(ts, m)) + multiset(bs)
  {
    var m' := m[t := bs];
    if ts[0] == t {
      assert t !in ts[1..];
      ConcatAgree(ts[1..], m, m');
    } else {
      assert t in ts[1..];
      ConcatReplace(ts[1..], m, t, bs);
      var head := multiset(if ts[0] in m then m[ts[0]] else []);
      var after, before := multiset(Concat(ts[1..], m')), multiset(Concat(ts[1..], m));
      assert multiset(Concat(ts, m')) == head + after;
      assert multiset(Concat(ts, m)) == head + before;
      calc {
        multiset(Concat(ts, m')) + multiset(m[t]);
        (head + after) + multiset(m[t]);
        head + (after + multiset(m[t]));
        head + (before + multiset(bs));
        (head + before) + multiset(bs);
        multiset(Concat(ts, m)) + multiset(bs);
      }
    }
  }

  /** A new type's list lands at the end of the enumeration. */
  lemma {:induction false} ConcatSnoc(ts: seq<Type>, m: map<Type, seq<Binding>>, t: Type, bs: seq<Binding>)
    requires t !in ts
    ensures Concat(ts + [t], m[t := bs]) == Concat(ts, m) + bs
  {
    if |ts| == 0 {
      assert [t][1..] == [];
    } else {
      assert (ts + [t])[1..] == ts[1..] + [t];
      ConcatSnoc(ts[1..], m, t, bs);
    }
  }

  /** Dropping a type drops its list from the enumeration. */
  lemma {:induction false} ConcatDrop(ts: seq<Type>, m: map<Type, seq<Binding>>, t: Type)
    requires Distinct(ts) && t in ts && t in m
    ensures multiset(Concat(RemoveType(ts, t), m - {t})) + multiset(m[t]) == multiset(Concat(ts, m))
  {
    if ts[0] == t {
      assert t !in ts[1..];
      assert RemoveType(ts[1..], t) == RemoveType(ts, t);
      ConcatAgree(ts[1..], m, m - {t});
      assert RemoveType(ts[1..], t) == ts[1..] by { RemoveAbsent(ts[1..], t); }
    } else {
      ConcatDrop(ts[1..], m, t);
      assert RemoveType(ts, t) == [ts[0]] + RemoveType(ts[1..], t);
    }
  }

  lemma {:induction false} RemoveAbsent(ts: seq<Type>, t: Type)
    requires t !in ts
    ensures RemoveType(ts, t) == ts
  {
    if |ts| > 0 {
      assert ts[0] != t && t !in ts[1..];
      RemoveAbsent(ts[1..], t);
      assert RemoveType(ts, t) == [ts[0]] + ts[1..];
    }
  }

  /** A binding is enumerated exactly when it is in its type's list. */
  lemma InEnumerate(c: BindingCollection, b: Binding)
    requires Valid(c)
    ensures b in Enumerate(c) <==> BindingType(b) in c.buckets && b in c.buckets[BindingType(b)]
  {
    InConcat(c.types, c.buckets, b);
  }

  lemma {:induction false} InConcat(ts: seq<Type>, m: map<Type, seq<Binding>>, b: Binding)
    ensures b in Concat(ts, m) <==> exists u :: u in ts && u in m && b in m[u]
  {
    if |ts| > 0 {
      InConcat(ts[1..], m, b);
      assert forall u :: u in ts <==> u == ts[0] || u in ts[1..] by {
        assert ts == [ts[0]] + ts[1..];
      }
    }
  }

  // ------------------------------------------------------------ grouping

  lemma {:induction false} AddAllSnoc(c: BindingCollection, bs: seq<Binding>, b: Binding)
    ensures AddAll(c, bs + [b]) == AddOne(AddAll(c, bs), b)
    decreases |bs|
  {
    if |bs| == 0 {
      assert bs + [b] == [b];
      assert [b][1..] == [];
    } else {
      assert (bs + [b])[1..] == bs[1..] + [b];
      AddAllSnoc(AddOne(c, bs[0]), bs[1..], b);
    }
  }

  lemma FirstTypesSnoc(bs: seq<Binding>, b: Binding)
    ensures var t := BindingType(b);
            FirstTypes(bs + [b]) == FirstTypes(bs) + (if t in FirstTypes(bs) then [] else [t])
  {
    assert (bs + [b])[..|bs|] == bs;
  }

  lemma OfTypeSnoc(bs: seq<Binding>, b: Binding, u: Type)
    ensures OfType(bs + [b], u) == OfType(bs, u) + (if BindingType(b) == u then [b] else [])
  {
    assert (bs + [b])[..|bs|] == bs;
  }

  lemma GroupedSnoc(bs: seq<Binding>, b: Binding)
    ensures Grouped(bs + [b]) == AddOne(Grouped(bs), b)
  {
    var t := BindingType(b);
    var g, g', r := Grouped(bs), Grouped(bs + [b]), AddOne(Grouped(bs), b);
    FirstTypesSnoc(bs, b);
    assert g'.types == r.types;
    forall u | u in g'.buckets
      ensures u in r.buckets && g'.buckets[u] == r.buckets[u]
    {
      OfTypeSnoc(bs, b, u);
      if u == t && t !in FirstTypes(bs) {
        NoneOfType(bs, t);
      }
    }
    assert g'.buckets.Keys == r.buckets.Keys;
    assert g'.buckets == r.buckets;
  }

  lemma {:induction false} NoneOfType(bs: seq<Binding>, t: Type)
    requires t !in FirstTypes(bs)
    ensures OfType(bs, t) == []
    decreases |bs|
  {
    if |bs| > 0 {
      var init := bs[..|bs| - 1];
      assert forall b :: b in init ==> b in bs;
      NoneOfType(init, t);
      assert bs[|bs| - 1] in bs;
    }
  }

  /** Grouping the list at once, as the constructor does, builds the same
      collection as adding its bindings one by one. */
  lemma {:induction false} GroupingMatchesAdding(bs: seq<Binding>)
    ensures Grouped(bs) == AddAll(Empty(), bs)
    decreases |bs|
  {
    if |bs| == 0 {
      assert Grouped(bs).buckets == map[];
    } else {
      var init, last := bs[..|bs| - 1], bs[|bs| - 1];
      assert bs == init + [last];
      GroupingMatchesAdding(init);
      GroupedSnoc(init, last);
      AddAllSnoc(Empty(), init, last);
    }
  }

  /** The constructor and AddRange on an empty collection agree on a list with
      no null in it, and the collection holds each binding of the list once. */
  lemma ConstructorMatchesAddRange(bs: seq<Option<Binding>>)
    requires NoNulls(bs)
    ensures AddRange(Empty(), Some(bs)).0 == None
    ensures FromSeq(Some(bs)) == Success(AddRange(Empty(), Some(bs)).1)
    ensures Valid(FromSeq(Some(bs)).value)
    ensures multiset(Enumerate(FromSeq(Some(bs)).value)) == multiset(Present(bs))
    ensures BindingCount(FromSeq(Some(bs)).value) == |bs|
  {
    GroupingMatchesAdding(Present(bs));
    AddAllKeepsValid(Empty(), Present(bs));
  }

  /** Bindings of one type come back out in the order they went in. */
  lemma {:induction false} OneTypeKeepsOrder(bs: seq<Binding>, t: Type)
    requires |bs| > 0
    requires forall i :: 0 <= i < |bs| ==> BindingType(bs[i]) == t
    ensures FirstTypes(bs) == [t] && OfType(bs, t) == bs
    ensures Enumerate(Grouped(bs)) == bs
    decreases |bs|
  {
    var init := bs[..|bs| - 1];
    if |init| > 0 {
      OneTypeKeepsOrder(init, t);
    }
    assert bs == init + [bs[|bs| - 1]];
    var m := Grouped(bs).buckets;
    assert [t][1..] == [];
    assert m[t] == OfType(bs, t);
    assert Concat([t], m) == m[t] + Concat([], m);
  }

  // ------------------------------------------------------------ resolving, proved

  /** Resolve answers with the first of the values ResolveAll answers with, and
      fails exactly as ResolveAll does when it fails. */
  lemma ResolveIsFirstOfAll(c: BindingCollection, t: Type, h: Heap)
    requires Valid(c)
    ensures var one, all := ResolveType(c, Some(t), h), ResolveAll(c, Some(t), h);
            && (all.result.Success? ==> |all.result.value| > 0 && one.result == Success(all.result.value[0]))
            && (one.result.Failure? ==> all == ListOutcome(Failure(one.result.error), one.heap))
  {
  }

  /** A missing type is a resolution error for that type over a
      KeyNotFoundException, from both Resolve and ResolveAll. */
  lemma MissingTypeFails(t: Type, h: Heap)
    ensures ResolveType(Empty(), Some(t), h).result.error.Resolution?
    ensures ResolveType(Empty(), Some(t), h).result.error.bindingType == t
    ensures ResolveType(Empty(), Some(t), h).result.error.inner == Some(KeyNotFound)
    ensures ResolveAll(Empty(), Some(t), h).result == Failure(ResolveType(Empty(), Some(t), h).result.error)
  {
  }

  lemma ResolveConstant(t: Type, v: Value, h: Heap)
    ensures Resolve(Lazy(t, [], Const(v)), h) == Outcome(Success(v), h)
  {
    assert InlineList([], []) == Success([]);
    assert Inline(Const(v), []) == Success(Const(v));
    assert Flatten(Lazy(t, [], Const(v))) == Success(Const(v));
  }

  /** Two bindings of one type around one of another group into two lists. */
  lemma GroupThree(one: Binding, other: Binding, two: Binding)
    requires BindingType(one) == BindingType(two) != BindingType(other)
    ensures var c := Grouped([one, other, two]);
            && c.types == [BindingType(one), BindingType(other)]
            && c.buckets[BindingType(one)] == [one, two]
  {
    var t := BindingType(one);
    FirstTypesSnoc([], one);
    FirstTypesSnoc([one], other);
    FirstTypesSnoc([one, other], two);
    assert [] + [one] == [one] && [one] + [other] == [one, other] && [one, other] + [two] == [one, other, two];
    OfTypeSnoc([], one, t);
    OfTypeSnoc([one], other, t);
    OfTypeSnoc([one, other], two, t);
  }

  lemma ResolveTwoConstants(t: Type, first: Value, second: Value, h: Heap)
    ensures ResolveEach([Lazy(t, [], Const(first)), Lazy(t, [], Const(second))], h)
              == ListOutcome(Success([first, second]), h)
  {
    var one := Lazy(t, [], Const(first));
    var two := Lazy(t, [], Const(second));
    ResolveConstant(t, first, h);
    ResolveConstant(t, second, h);
    assert [two][1..] == [] && [one, two][1..] == [two];
    assert ResolveEach([], h) == ListOutcome(Success([]), h);
    assert [second] + [] == [second];
    assert ResolveEach([two], h) == ListOutcome(Success([second]), h);
    assert [first] + [second] == [first, second];
  }

  /** The bindings for a type resolve in the order they were added, skipping
      those of other types. */
  lemma ResolveAllInOrder(first: Value, second: Value, other: Binding, h: Heap)
    requires BindingType(other) != Named("ISample")
    ensures var one := Lazy(Named("ISample"), [], Const(first));
            var two := Lazy(Named("ISample"), [], Const(second));
            var c := Grouped([one, other, two]);
            && TypeCount(c) == 2
            && ResolveAll(c, Some(Named("ISample")), h) == ListOutcome(Success([first, second]), h)
  {
    var t := Named("ISample");
    GroupThree(Lazy(t, [], Const(first)), other, Lazy(t, [], Const(second)));
    ResolveTwoConstants(t, first, second, h);
  }

  /** Resolving a list with one more binding at the end resolves that binding
      last, against the heap the others left, and only if they all succeeded. */
  lemma {:induction false} ResolveEachSnoc(bs: seq<Binding>, b: Binding, h: Heap)
    ensures var before := ResolveEach(bs, h);
            var last := Resolve(b, before.heap);
            ResolveEach(bs + [b], h)
              == if before.result.Failure? then before
                 else if last.result.Failure? then ListOutcome(Failure(last.result.error), last.heap)
                 else ListOutcome(Success(before.result.value + [last.result.value]), last.heap)
    decreases |bs|
  {
    var before := ResolveEach(bs, h);
    var all := ResolveEach(bs + [b], h);
    if |bs| == 0 {
      assert [] + [b] == [b] && [b][1..] == [];
      var last := Resolve(b, h);
      assert ResolveEach([], last.heap) == ListOutcome(Success([]), last.heap);
      if last.result.Success? {
        assert [last.result.value] + [] == [] + [last.result.value];
      }
    } else {
      assert (bs + [b])[0] == bs[0] && (bs + [b])[1..] == bs[1..] + [b];
      var x := Resolve(bs[0], h);
      if x.result.Success? {
        var rest := ResolveEach(bs[1..], x.heap);
        ResolveEachSnoc(bs[1..], b, x.heap);
        assert all.result.Failure? ==> all == ResolveEach(bs[1..] + [b], x.heap);
        if rest.result.Success? {
          var last := Resolve(b, rest.heap);
          assert before == ListOutcome(Success([x.result.value] + rest.result.value), rest.heap);
          if last.result.Success? {
            assert [x.result.value] + rest.result.value + [last.result.value]
                == [x.result.value] + (rest.result.value + [last.result.value]);
          }
        }
      }
    }
  }

  /** Adding a binding never changes what Resolve answers for a type that is
      already registered, nor for any other type: the first binding wins. */
  lemma AddKeepsResolve(c: BindingCollection, b: Binding, t: Type, h: Heap)
    requires Valid(c)
    requires t in c.buckets || t != BindingType(b)
    ensures ResolveType(AddOne(c, b), Some(t), h) == ResolveType(c, Some(t), h)
  {
    AddOneKeepsValid(c, b);
    var r := AddOne(c, b);
    if t in c.buckets {
      assert r.buckets[t][0] == c.buckets[t][0];
    }
  }

  /** After adding a binding, ResolveAll for its type resolves the earlier
      bindings as before and then the new one, against the heap they left. */
  lemma AddThenResolveAll(c: BindingCollection, b: Binding, h: Heap)
    ensures var t := BindingType(b);
            var before := ResolveAll(c, Some(t), h);
            var after := ResolveAll(AddOne(c, b), Some(t), h);
            var last := Resolve(b, before.heap);
            && (t !in c.buckets ==> after == ResolveEach([b], h))
            && (t in c.buckets && before.result.Failure? ==> after == before)
            && (t in c.buckets && before.result.Success? && last.result.Failure? ==>
                  after == ListOutcome(Failure(last.result.error), last.heap))
            && (t in c.buckets && before.result.Success? && last.result.Success? ==>
                  after == ListOutcome(Success(before.result.value + [last.result.value]), last.heap))
  {
    var t := BindingType(b);
    if t in c.buckets {
      ResolveEachSnoc(c.buckets[t], b, h);
    } else {
      assert [] + [b] == [b];
    }
  }

  /** After removing a binding, Resolve for its type answers with the same
      binding unless the removed one was the first; then the next one answers,
      and with none left the type is missing. */
  lemma RemoveThenResolve(c: BindingCollection, b: Binding, h: Heap)
    requires Valid(c)
    requires Remove(c, Some(b)).0
    ensures var t := BindingType(b);
            var s := c.buckets[t];
            var after := ResolveType(Remove(c, Some(b)).1, Some(t), h);
            && (s[0] != b ==> after == ResolveType(c, Some(t), h))
            && (s[0] == b && |s| > 1 ==> after == Resolve(s[1], h))
            && (|s| == 1 ==> after == Outcome(Failure(Wrapped(t, KeyNotFound)), h))
  {
    RemoveKeepsValid(c, Some(b));
    var t := BindingType(b);
    var s := c.buckets[t];
    var i := FirstIndex(s, b);
    var r := Remove(c, Some(b)).1;
    if |s| > 1 {
      var rest := s[..i] + s[i + 1..];
      assert r.buckets[t] == rest;
      if s[0] != b {
        assert i > 0 && rest[0] == s[0];
      } else {
        assert i == 0 && rest[0] == s[1];
      }
    }
  }

  /** Removing one of three bindings leaves two; removing null removes nothing. */
  lemma RemoveOneOfThree(one: Binding, other: Binding, two: Binding)
    ensures var c := AddAll(Empty(), [one, other, two]);
            var r := Remove(c, Some(one));
            && BindingCount(c) == 3
            && r.0 && BindingCount(r.1) == 2
            && Remove(c, None) == (false, c)
  {
    var c := AddAll(Empty(), [one, other, two]);
    AddAllKeepsValid(Empty(), [one, other, two]);
    InEnumerate(c, one);
    assert one in multiset(Enumerate(c));
    RemoveKeepsValid(c, Some(one));
  }
}

