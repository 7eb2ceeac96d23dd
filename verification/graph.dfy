/** The binding graph: values, construction expressions, bindings and the mutable
    state (object allocation and scope caches) that resolution threads through.

    A C# construction lambda is an expression tree; here it is an explicit `Expr`.
    `DepMark(b)` is a call of the `Dependency(b)` marker method, `DepResolve(i)` is
    the rewritten `((IBinding<T>)b[i]).Resolve()`, `Captured(b)` is a
    `binding.Resolve()` call on a binding captured by the lambda, and
    `GetOrAdd` is the cache block a scoped binding installs as its body. */
module Graph {
  import opened Exceptions

  /** Run-time values. An object carries the identity it was allocated with:
      two objects are the same instance when they have the same id. An injected
      copy shares the id but not the fields. */
  datatype Value =
    | Null
    | Int(i: int)
    | Str(s: string)
    | Obj(id: nat, cls: string, args: seq<Value>, fields: map<string, Value>)
    | App(fn: string, args: seq<Value>)

  /** The scope-key selector: a constant key, an ambient value the caller
      controls (the current request, thread, or a captured variable), or user
      code that throws (GroupBy calls the user's selector with null, so a
      selector that reads a member of its argument always throws). */
  datatype Selector = Fixed(key: Value) | Ambient | Failing(error: Exception)

  datatype ScopeKind = ValueScope | ReferenceScope

  datatype Expr =
    | Const(v: Value)
    | New(ctor: string, args: seq<Expr>)
    | MemberInit(ctor: string, args: seq<Expr>, fields: seq<string>, values: seq<Expr>)
    | Call(fn: string, args: seq<Expr>)
    | Param(name: string)
    | DepMark(target: Option<Binding>)
    | DepResolve(index: int)
    | Captured(binding: Binding)
    | GetOrAdd(cache: nat, selector: Selector, inner: Binding)
    | Throw(error: Exception)

  /** `Lazy` is LazyConstructorBinding; `Scoped` is ValueScopedBinding or
      ReferenceScopedBinding (both derive from LazyConstructorBinding, with no
      dependencies and a body installed by SetBinding); `Constructor` is
      ConstructorBinding around a closed function. */
  datatype Binding =
    | Lazy(produces: Type, deps: seq<Binding>, body: Expr)
    | Scoped(kind: ScopeKind, produces: Type, cache: nat, selector: Selector, inner: Option<Binding>)
    | Constructor(produces: Type, ctor: Expr)

  /** The bindings the inliner treats as lazy: those implementing ILazyConstructorBinding. */
  predicate IsLazy(b: Binding)
  {
    b.Lazy? || b.Scoped?
  }

  /** The dependency list a lazy binding exposes. */
  function Deps(b: Binding): seq<Binding>
  {
    match b
    case Lazy(_, deps, _) => deps
    case _ => []
  }

  /** The body of a lazy binding's construction expression. A scoped binding's
      initial expression is `bindings => null`; SetBinding replaces it with the
      get-or-add block over the scope's cache. */
  function Body(b: Binding): Expr
  {
    match b
    case Lazy(_, _, body) => body
    case Scoped(_, _, c, sel, inner) =>
      if inner.Some? then GetOrAdd(c, sel, inner.value) else Const(Null)
    case Constructor(_, f) => f
  }

  /** `GetType()` of a binding, the type a BindingResolutionException records. */
  function RuntimeType(b: Binding): Type
  {
    match b
    case Lazy(t, _, _) => Generic("LazyConstructorBinding", [t])
    case Scoped(ValueScope, t, _, _, _) => Generic("ValueScopedBinding", [t])
    case Scoped(ReferenceScope, t, _, _, _) => Generic("ReferenceScopedBinding", [t])
    case Constructor(t, _) => Generic("ConstructorBinding", [t])
  }

  // ---------------------------------------------------------------- state

  /** The mutable state resolution touches: the next fresh object identity, the
      key-to-value map of every scope cache, and the ambient scope key. */
  datatype Heap = Heap(next: nat, caches: map<nat, map<Value, Value>>, ambient: Value)

  function CacheOf(h: Heap, c: nat): map<Value, Value>
  {
    if c in h.caches then h.caches[c] else map[]
  }

  /** Every entry of `m` is still in `m'` with the same value. */
  ghost predicate Includes(m: map<Value, Value>, m': map<Value, Value>)
  {
    forall k :: k in m ==> k in m' && m'[k] == m[k]
  }

  /** `h'` is a possible later state of `h`: identities only advance, the ambient
      key is untouched, and cache entries are never removed or overwritten. */
  ghost predicate Extends(h: Heap, h': Heap)
  {
    && h.next <= h'.next
    && h'.ambient == h.ambient
    && forall c :: c in h.caches ==> c in h'.caches && Includes(h.caches[c], h'.caches[c])
  }

  /** The outcome of running user code: a value or an exception, and the state after. */
  datatype Outcome = Outcome(result: Result<Value>, heap: Heap)

  // ------------------------------------------------------------ measures

  function Max(a: nat, b: nat): nat { if a < b then b else a }

  /** Nesting depth of a binding, counting the bindings embedded in its bodies. */
  function Height(b: Binding): nat
  {
    match b
    case Lazy(_, deps, body) => 1 + Max(BMax(body), MaxHeight(deps))
    case Scoped(_, _, _, _, inner) => if inner.Some? then 1 + Height(inner.value) else 1
    case Constructor(_, f) => 1 + BMax(f)
  }

  function MaxHeight(bs: seq<Binding>): nat
  {
    if |bs| == 0 then 0 else Max(Height(bs[0]), MaxHeight(bs[1..]))
  }

  /** The greatest height of a binding embedded in an expression. */
  function BMax(e: Expr): nat
  {
    match e
    case New(_, args) => BMaxList(args)
    case MemberInit(_, args, _, values) => Max(BMaxList(args), BMaxList(values))
    case Call(_, args) => BMaxList(args)
    case DepMark(target) => if target.Some? then Height(target.value) else 0
    case Captured(b) => Height(b)
    case GetOrAdd(_, _, b) => Height(b)
    case _ => 0
  }

  function BMaxList(es: seq<Expr>): nat
  {
    if |es| == 0 then 0 else Max(BMax(es[0]), BMaxList(es[1..]))
  }

  /** Number of expression nodes, not counting embedded bindings. */
  function Size(e: Expr): nat
  {
    match e
    case New(_, args) => 1 + SizeList(args)
    case MemberInit(_, args, _, values) => 1 + SizeList(args) + SizeList(values)
    case Call(_, args) => 1 + SizeList(args)
    case _ => 1
  }

  function SizeList(es: seq<Expr>): nat
  {
    if |es| == 0 then 0 else 1 + Size(es[0]) + SizeList(es[1..])
  }

  lemma {:induction false} HeightBelowMax(bs: seq<Binding>, i: int)
    requires 0 <= i < |bs|
    ensures Height(bs[i]) <= MaxHeight(bs)
    decreases i
  {
    if i > 0 {
      HeightBelowMax(bs[1..], i - 1);
      assert bs[1..][i - 1] == bs[i];
    }
  }

  /** A lazy binding is strictly higher than everything its body and dependencies embed. */
  lemma LazyHeight(b: Binding)
    requires IsLazy(b)
    ensures BMax(Body(b)) < Height(b)
    ensures MaxHeight(Deps(b)) < Height(b)
  {
  }

  // ------------------------------------------------------------ queries

  /** The indices of the `b[i].Resolve()` nodes of an expression, in the order
      an expression visitor reaches them (embedded bindings are not entered). */
  function Refs(e: Expr): seq<int>
  {
    match e
    case New(_, args) => RefsList(args)
    case MemberInit(_, args, _, values) => RefsList(args) + RefsList(values)
    case Call(_, args) => RefsList(args)
    case DepResolve(i) => [i]
    case _ => []
  }

  function RefsList(es: seq<Expr>): seq<int>
  {
    if |es| == 0 then [] else Refs(es[0]) + RefsList(es[1..])
  }
}
