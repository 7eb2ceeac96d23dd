# LINDI binding core in Dafny

LINDI ("LINQ Dependency Injection") builds dependency-injection bindings from
C# query expressions. `from b in Bind<ISample>() select new Sample()` becomes
a binding that produces a `Sample` each time it is resolved. A
`Dependency(otherBinding)` marker inside the query makes `otherBinding`
resolve first. `group … by key` makes a binding that keeps one instance per
key. An `InjectValuesInto` assigns values into an object that already exists.
A `BindingCollection` files bindings by the type they produce.

This project models that core as pure functions over immutable data. "Left out"
lists what that loses where the program updates an object in place. The modules:

- `Exceptions` holds the exceptions the core throws and `BindingResolutionException`'s
  two constructors. It also has the wrap depth and root cause of an exception chain.
- `Graph` holds run-time values, construction expressions (`Expr`) and the three
  binding shapes: a lazy constructor binding, a scoped binding, and a constructor
  binding. It also has the heap (next object id, the scoped caches, the ambient
  value a selector reads) and the measures that make resolution terminate.
- `Extraction` is `LazyConstructorExpressionBuilder`. It rewrites
  `Dependency(x)` into `b[i].Resolve()` and collects the dependency list.
- `Inlining` is `DependencyInliner`, both the corrected version and the version
  as written.
- `Evaluation` evaluates expressions. It also holds `Resolve`, with
  `BaseBinding`'s exception wrapping.
- `Flattening` proves that inlining preserves meaning.
- `LazyBindings` is `LazyConstructorBinding` as a stateful cell around its
  `Lazy<IBindToConstructor>`, plus `BindToConstructor`.
- `ConstructorBindings` is `ConstructorBinding`.
- `Scopes` covers `ValueScopedBinding` and `ReferenceScopedBinding`.
- `Linq` covers `BindingExtensions.Wrap`, `Select` and `GroupBy`.
- `Injection` covers `InjectValuesInto` and `InjectExtensions.Where`/`Select`.
- `Collection` is `BindingCollection`.

An object carries the id it was allocated with, and two objects are the same
instance when they have the same id. Objects are immutable values here, so an
injected field shows only on the object the injection returns (see "Left out").
Strings and other non-object values are compared by value. Expressions are a small language: constants, `new`, member
initialisers, opaque calls, parameters, dependency markers, `b[i].Resolve()`,
a captured binding's `Resolve()`, the scoped get-or-add block, and `throw`.
Resolving threads the heap, so an allocation or a cache entry made by one
resolve is visible to the next.

Where the tests and the code disagree, the model follows the code. There is one
exception, recorded under "Findings": the inliner as written leaves `b[i]` behind
for a non-lazy dependency, and compiling that body fails. `Inlining` models both
versions. Resolution (`LazyBindings.BuildConstructor`, `Evaluation.Resolve`) uses
the corrected one. Other disagreements:

- A resolution error reports `GetType()` of the binding that caught it. The
  scoped bindings derive from `LazyConstructorBinding`, so their errors name
  the scoped type.
- `GroupBy` always creates a `ValueScopedBinding`. Some tests expect a
  `ReferenceScopedBinding`, and some expect `ConstructorBinding` where the code
  builds a `BindToConstructor`. Those tests belong to another revision.
- This revision's `IBinding.cs` declares no non-generic `IBinding` and no
  `BindingType` property. The collection files a binding under the type it
  produces.
- `ReferenceScopedBinding.SetBinding` calls a helper that `ExpressionHelpers.cs`
  does not define in this revision. It is modelled as the same get-or-add
  lookup that `ValueScopedBinding` spells out.

## Model

| member | source | states |
|---|---|---|
| `Exceptions.NewResolutionError` | src/LINDI.Core/Bindings/BindingResolutionException.cs:36-41 | a null binding type is refused with ArgumentNullException("bindingType"); otherwise message, type and inner exception (null included) are kept exactly as given |
| `Exceptions.NewResolutionErrorFor` | src/LINDI.Core/Bindings/BindingResolutionException.cs:24-27 | the same refusal; the message is the generated one naming the binding type, and the inner exception is kept |
| `Exceptions.Wrapped` | src/LINDI.Core/Bindings/BaseBinding.cs:25-28 | the exception a binding throws for a caught cause is a resolution error for its runtime type with the cause as inner exception, the same value the two-argument constructor builds |
| `Evaluation.WrapFailure` | src/LINDI.Core/Bindings/BaseBinding.cs:19-29 | a success passes through untouched; a failure gains exactly one resolution-error layer with the same root cause; the heap is unchanged by the wrapping |
| `Evaluation.Resolve` | src/LINDI.Core/Bindings/LazyConstructorBinding.cs:161-164 | resolving never loses state (caches only grow, ids only increase), and every failure that leaves a binding is a resolution error naming that binding's runtime type |
| `Extraction.BuildLazyBindingExpression` | src/LINDI.Core/ExpressionHelpers.cs:40-73 | fails exactly when the expression holds a parameter reference or a null marker, with the first such node's exception; on success the dependency list is the marked bindings in visiting order, the body's indices are exactly 0..n-1 in order, and substituting the list back gives the input with each marker resolved in place |
| `Extraction.ExtractFault` | src/LINDI.Core/ExpressionHelpers.cs:48-58 | extraction throws exactly for a parameter reference or a null marker, and it is the first such node in visiting order that decides the exception |
| `Extraction.ExtractTargets` | src/LINDI.Core/ExpressionHelpers.cs:57-59 | the dependency list gains exactly the marked bindings, one per marker, in visiting order |
| `Extraction.ExtractRefs` | src/LINDI.Core/ExpressionHelpers.cs:63-70 | each marker becomes `b[i]` with `i` its position in the list: the indices emitted are dense, in range and each used once |
| `Extraction.ExtractResolved` | src/LINDI.Core/ExpressionHelpers.cs:53-73 | putting the dependencies back in place of their indices gives the input with only its markers changed |
| `Inlining.Inline` | src/LINDI.Core/Bindings/LazyConstructorBinding.cs:127-158 | every binding the inlined body embeds is no higher than the bindings already in the body or in the dependency list, which is what lets resolving a flattened body terminate |
| `Inlining.Flatten` | src/LINDI.Core/Bindings/LazyConstructorBinding.cs:76-77 | a lazy binding's flattened body embeds only bindings strictly below the binding itself |
| `Inlining.CompileAsWritten` | src/LINDI.Core/Bindings/LazyConstructorBinding.cs:117-120 | as written, an inlined body compiles only if no `b[i]` is left in it; one left over is an InvalidOperationException for an undefined parameter, and inlining errors pass through |
| `Flattening.InlinePreservesMeaning` | src/LINDI.Core/Bindings/LazyConstructorBinding.cs:127-158 | running the inlined body with no dependency array gives the same value and the same heap as running the original body against the dependency list; on failure both have the same root cause, and the inlined one has no more wrapping |
| `Flattening.ResolveMatchesReference` | src/LINDI.Core/Bindings/LazyConstructorBinding.cs:71-78 | resolving a lazy binding through its flattened producer agrees with running its own body against its own dependencies, wrapped as BaseBinding wraps |
| `Flattening.InlineLeavesNoRefs` | src/LINDI.Core/Bindings/LazyConstructorBinding.cs:117-120 | the corrected inliner leaves no `b[i]` behind, so the parameterless producer is self-contained |
| `Flattening.AsWrittenMatchesWhenDeepLazy` | src/LINDI.Core/Bindings/LazyConstructorBinding.cs:131-153 | when every dependency is lazy all the way down, the inliner as written and the corrected one produce the same expression |
| `Flattening.FlattensNestedLazy` | src/LINDI.Core/Bindings/LazyConstructorBinding.cs:141-152 | a dependency that is itself a lazy binding over a dependency is replaced, two levels deep, by its own body |
| `Flattening.FlattensInsideInitializer` | src/LINDI.Core/Bindings/LazyConstructorBinding.cs:127-158 | markers inside a member initialiser are inlined too |
| `Flattening.CapturesNonLazyReferences` | src/LINDI.Core/Bindings/LazyConstructorBinding.cs:137-157 | a non-lazy dependency is resolved directly in the corrected inliner instead of through `b[i]` |
| `Flattening.ResolvesNestedLazy` | src/LINDI.Core/Bindings/LazyConstructorBinding.cs:161-164 | `new HasSample(Dependency(sample))` resolves to a HasSample around a freshly allocated Sample |
| `Flattening.NonLazyDependencyAsWritten` | src/LINDI.Core/Bindings/LazyConstructorBinding.cs:127-158 | as written, a ConstructorBinding dependency leaves `b[0]` in the parameterless lambda and compiling fails; the corrected model resolves the same binding to a HasSample around a fresh Sample |
| `LazyBindings.NewBindToConstructor` | src/LINDI.Core/Bindings/BindToConstructor.cs:18-22 | a null function is refused with ArgumentNullException("constructor"); otherwise it is kept as given |
| `LazyBindings.ResolveConstructor` | src/LINDI.Core/Bindings/BindToConstructor.cs:13-16 | resolving only runs the function: state only grows; a `throw` body comes out as its own exception, unwrapped; a `new` body yields a freshly allocated object |
| `LazyBindings.ConstructorBindingWrapsBindToConstructor` | src/LINDI.Core/Bindings/BindToConstructor.cs:13-16 | for every function, resolving a BindToConstructor leaves the same heap as a ConstructorBinding over it; the values agree, and a failure reaches the ConstructorBinding with exactly one wrapping layer more, so BindToConstructor itself adds none |
| `LazyBindings.NewLazyCell` | src/LINDI.Core/Bindings/LazyConstructorBinding.cs:63-69 | dependencies are checked before the expression, each refused with its own ArgumentNullException; a new binding keeps both as given and is not built |
| `LazyBindings.EmptyCell` | src/LINDI.Core/Bindings/LazyConstructorBinding.cs:41-44 | the protected constructor leaves both inputs unset and the binding unbuilt |
| `LazyBindings.IsBuiltMeansValueKept` | src/LINDI.Core/Bindings/LazyConstructorBinding.cs:32-39 | IsBuilt holds exactly when forcing the cell succeeds without changing it, that is when the constructor is already created |
| `LazyBindings.BuildConstructor` | src/LINDI.Core/Bindings/LazyConstructorBinding.cs:71-78 | unset dependencies, then an unset expression, are InvalidOperationExceptions with their own messages; otherwise the result is the inlined body wrapped in a BindToConstructor, or the inliner's failure |
| `LazyBindings.Force` | src/LINDI.Core/Bindings/LazyConstructorBinding.cs:37-43 | the factory runs only while the cell is unbuilt; afterwards the kept value or the kept exception is returned and the cell no longer changes; only the state changes |
| `LazyBindings.ResolveCell` | src/LINDI.Core/Bindings/LazyConstructorBinding.cs:161-164 | resolving forces the cell; a build failure is reported wrapped under the binding's runtime type with the heap untouched |
| `LazyBindings.CellMatchesBinding` | src/LINDI.Core/Bindings/LazyConstructorBinding.cs:63-78 | a binding made by the public constructor resolves exactly as the immutable lazy binding with the same inputs |
| `LazyBindings.BuiltOnce` | src/LINDI.Core/Bindings/LazyConstructorBinding.cs:32 | after a first successful resolve the binding is built, and later resolves use the constructor built then, even after its inputs are replaced |
| `LazyBindings.FailedBuildIsKept` | src/LINDI.Core/Bindings/LazyConstructorBinding.cs:39-43 | a build that failed is not retried: later resolves report the same cause and the binding stays unbuilt |
| `LazyBindings.UnsetInputsFail` | src/LINDI.Core/Bindings/LazyConstructorBinding.cs:73-74 | resolving with an unset input is a resolution error over an InvalidOperationException |
| `ConstructorBindings.NewConstructorBinding` | src/LINDI.Core/Bindings/ConstructorBinding.cs:23-27 | a null function is refused with ArgumentNullException("constructor"); otherwise kept as given |
| `ConstructorBindings.ResolveCallsFunction` | src/LINDI.Core/Bindings/ConstructorBinding.cs:13-16 | resolving calls the function: same value and heap on success, and a failure wrapped once under ConstructorBinding |
| `ConstructorBindings.NoCaching` | src/LINDI.Core/Bindings/ConstructorBinding.cs:13-16 | two resolves of `() => new C()` give two distinct instances |
| `ConstructorBindings.ErrorChain` | src/LINDI.Core/Bindings/BaseBinding.cs:19-29 | a binding that resolves a failing binding reports two resolution-error layers, outer binding first, over the original cause |
| `Scopes.NewScoped` | src/LINDI.Core/Bindings/ValueScopedBinding.cs:23-27 | a null selector is refused with ArgumentNullException("valueSelector"); otherwise a new scoped binding with a fresh, empty cache and no inner binding |
| `Scopes.SetBinding` | src/LINDI.Core/Bindings/ValueScopedBinding.cs:29-31 | a null binding is refused with ArgumentNullException("binding"); otherwise only the inner binding changes |
| `Scopes.UnsetScopeYieldsNull` | src/LINDI.Core/Bindings/ValueScopedBinding.cs:23 | before SetBinding a scoped binding resolves to null and changes nothing |
| `Scopes.NullKeyFails` | src/LINDI.Core/Bindings/ValueScopedBinding.cs:41-57 | a null key makes the cache lookup throw ArgumentNullException("key"), reported wrapped, with nothing stored |
| `Scopes.HitReturnsCached` | src/LINDI.Core/Bindings/ValueScopedBinding.cs:56-77 | a key already in the cache returns the stored instance without resolving the inner binding or changing state |
| `Scopes.MissResolvesInner` | src/LINDI.Core/Bindings/ValueScopedBinding.cs:59-77 | on a miss the inner binding is resolved once and its value is stored under the key and returned; its failure is passed on wrapped and nothing is stored |
| `Scopes.SelectorFailureIsWrapped` | src/LINDI.Core/Bindings/ValueScopedBinding.cs:56-57 | an exception thrown by the value selector is reported wrapped under the scoped type, with nothing stored and the inner binding not resolved |
| `Scopes.ResolveRecordsKey` | src/LINDI.Core/Bindings/ValueScopedBinding.cs:67-71 | after a successful resolve the key maps to the returned instance |
| `Scopes.SameKeySameInstance` | src/LINDI.Core/Bindings/ValueScopedBinding.cs:56-77 | resolving twice with the same key gives the same instance |
| `Scopes.EntriesPersist` | src/LINDI.Core/Bindings/ValueScopedBinding.cs:21 | once stored, an entry stays for every later state |
| `Scopes.AlternatingKeys` | src/LINDI.Core/Bindings/ReferenceScopedBinding.cs:59-85 | keys k1, k2, k1 give a first instance, a different second one, then the first again |
| `Scopes.ScopeCell` | src/LINDI.Core/Bindings/ValueScopedBinding.cs:23 | a scoped binding starts as a lazy binding over no dependencies whose expression yields null, reporting the scoped type |
| `Scopes.SetCellBinding` | src/LINDI.Core/Bindings/ValueScopedBinding.cs:29-82 | SetBinding replaces only the construction expression, refusing a null binding |
| `Scopes.ScopeCellMatchesBinding` | src/LINDI.Core/Bindings/ValueScopedBinding.cs:29-81 | a scoped binding whose expression was set before its first resolve resolves as the immutable scoped binding does |
| `Scopes.EarlyResolveSticks` | src/LINDI.Core/Bindings/LazyConstructorBinding.cs:37-43 | a scoped binding resolved before SetBinding builds its constructor from the null expression, and a later SetBinding no longer changes what it resolves to |
| `Linq.Wrap` | src/LINDI.Core/Linq/BindingExtensions.cs:16-25 | a filter binding on the left is returned as a copy with the new binding as its inner binding, the rest of it unchanged; any other left-hand binding, null included, is dropped in favour of the new one |
| `Linq.WrapResolves` | src/LINDI.Core/Linq/BindingExtensions.cs:16-25 | the wrapped result resolves as the filter's get-or-add block over the new binding, wrapped under the filter's type; without a filter it resolves as the new binding itself |
| `Linq.Select` | src/LINDI.Core/Linq/BindingExtensions.cs:47-58 | a null expression is refused; the builder's refusal is passed on; otherwise the result is, or wraps, the lazy binding built from the expression |
| `Linq.GroupBy` | src/LINDI.Core/Linq/BindingExtensions.cs:72-78 | a null selector is refused; otherwise a new, still unset value-scoped binding with a fresh cache, wrapped into a filter on the left |
| `Linq.SelectIntoGroupResolves` | src/LINDI.Core/Linq/BindingExtensions.cs:47-58 | selecting on a grouped binding gives the group itself, set to the plain selected binding, and resolving it runs the group's cache lookup with that binding on a miss |
| `Linq.GroupedByMemberOfNullFails` | src/LINDI.Core/Linq/BindingExtensions.cs:72-78 | the group's selector is called on null, so a selector that reads a member of its argument makes every resolve fail with a NullReferenceException wrapped under the scoped type |
| `Linq.EvalResolved` | src/LINDI.Core/Bindings/LazyConstructorBinding.cs:77 | running a body with its dependencies substituted back in behaves as running it against the dependency list |
| `Linq.SelectMeaning` | src/LINDI.Core/Linq/BindingExtensions.cs:47-58 | a selected binding resolves like the query's expression with every marker resolved in place |
| `Linq.SelectingRangeVariableFails` | src/LINDI.Core/ExpressionHelpers.cs:48-51 | a query that selects its own range variable is refused with ArgumentException |
| `Linq.SelectedDependencyResolves` | src/LINDI.Core/Linq/BindingExtensions.cs:47-58 | `select new HasSample(Dependency(sample))` resolves to a HasSample around a fresh Sample |
| `Linq.GroupedConstantIsSingleton` | src/LINDI.Core/Linq/BindingExtensions.cs:72-78 | grouping by a constant key gives the same instance on every resolve |
| `Linq.GroupedAmbientScopes` | src/LINDI.Core/Linq/BindingExtensions.cs:72-78 | grouping by an ambient value gives one instance per value, and returning to a value returns its instance |
| `Injection.RunSteps` | src/LINDI.Core/Bindings/InjectValuesInto.cs:40-43 | the action changes only the fields it assigns; a successful run assigns every one of them; the heap only grows |
| `Injection.Inject` | src/LINDI.Core/Bindings/InjectValuesInto.cs:34-55 | an unfinished injection fails with a resolution error with no inner exception; a resolution error from the action is rethrown as it is, anything else is wrapped once; every failure is a resolution error |
| `Injection.SetAction` | src/LINDI.Core/Bindings/InjectValuesInto.cs:17-27 | the action can be set once; later sets are ignored, and a null set leaves it open |
| `Injection.Select` | src/LINDI.Core/Linq/InjectExtensions.cs:23-27 | a null injection fails with NullReferenceException; otherwise the same injection comes back, for the same target, with its action set unless one was already set |
| `Injection.Where` | src/LINDI.Core/Linq/InjectExtensions.cs:37-40 | a fresh, unfinished injection for the target type; the binding and the expression play no part |
| `Injection.FirstActionWins` | src/LINDI.Core/Linq/InjectExtensions.cs:23-27 | after `Select(f)` a second Select changes nothing; after `Select(null)` the next one takes effect |
| `Injection.SuccessfulInjectAssignsFields` | src/LINDI.Core/Bindings/InjectValuesInto.cs:34-55 | a successful injection leaves the same object with its assigned fields set and the others as they were |
| `Injection.InjectsTwoValues` | src/LINDI.Core/Bindings/InjectValuesInto.cs:40-43 | an action that assigns two resolved values sets both fields to them |
| `Injection.FailureKeepsEarlierAssignments` | src/LINDI.Core/Bindings/InjectValuesInto.cs:44-53 | a failure part-way keeps the assignments made before it and reports the cause wrapped |
| `Injection.ResolutionErrorIsRethrown` | src/LINDI.Core/Bindings/InjectValuesInto.cs:46-49 | a resolution error thrown by the action reaches the caller unchanged |
| `Collection.Empty` | src/Lindi.Ioc/BindingCollection.cs:20-23 | an empty collection is valid, with no types and no bindings |
| `Collection.BindingCount` | src/Lindi.Ioc/BindingCollection.cs:41 | the number of bindings counted is the number enumerated |
| `Collection.TypeCountIsKeyCount` | src/Lindi.Ioc/BindingCollection.cs:40 | the type count is the number of keys of the dictionary |
| `Collection.InEnumerate` | src/Lindi.Ioc/BindingCollection.cs:30-33 | a binding is enumerated exactly when it is in the list filed under its type |
| `Collection.AddOne` | src/Lindi.Ioc/BindingCollection.cs:46 | the binding is appended to its type's list, a new type goes last in type order, and every other type's list is unchanged |
| `Collection.Add` | src/Lindi.Ioc/BindingCollection.cs:43-47 | a null binding is refused with ArgumentNullException("binding"); otherwise the binding is filed under its type |
| `Collection.AddRange` | src/Lindi.Ioc/BindingCollection.cs:49-56 | a null list is refused with ArgumentNullException("bindings"); a list without nulls is added in order; a null element stops the loop with ArgumentNullException("binding"), and the bindings before it stay added, in order |
| `Collection.FromSeq` | src/Lindi.Ioc/BindingCollection.cs:25-28 | a null list gives an empty collection; a null element fails in the grouping key; otherwise the bindings grouped by type, in first-seen order |
| `Collection.Remove` | src/Lindi.Ioc/BindingCollection.cs:58-61 | answers true exactly when a non-null binding is filed under its type; a false answer changes nothing; a true one takes out the first equal binding of that list, keeps the others in order, drops the type when the list empties, and leaves every other type alone |
| `Collection.RemoveFirstKeepsOrder` | src/Lindi.Ioc/BindingCollection.cs:60 | removing a value from a list takes out its first occurrence and leaves the elements before and after it in order |
| `Collection.ResolveType` | src/Lindi.Ioc/BindingCollection.cs:63-74 | a null type is refused; a type with no bindings is a resolution error for that type over a KeyNotFoundException; on a valid collection a registered type resolves as its first binding, and every failure is a resolution error; state only grows |
| `Collection.ResolveEach` | src/Lindi.Ioc/BindingCollection.cs:95 | resolving the list is evaluating one resolve call per binding as an array initialiser, left to right: one value per binding, the first failure stops the rest, and every failure is a resolution error |
| `Collection.ResolveAll` | src/Lindi.Ioc/BindingCollection.cs:90-101 | the same refusals as Resolve; a registered type evaluates its bindings' resolve calls in the order added, one value per binding; every failure for a non-null type is a resolution error |
| `Collection.ResolveOf` | src/Lindi.Ioc/BindingCollection.cs:76-88 | no ArgumentNullException: a missing type is a resolution error over a KeyNotFoundException; on a valid collection a registered type resolves as its first binding and every failure is a resolution error |
| `Collection.ResolveAllOf` | src/Lindi.Ioc/BindingCollection.cs:103-114 | no ArgumentNullException: a missing type is a resolution error over a KeyNotFoundException; a registered type evaluates its bindings' resolve calls in order; every failure is a resolution error |
| `Collection.AddOneKeepsValid` | src/Lindi.Ioc/BindingCollection.cs:43-47 | adding keeps the dictionary invariant, adds exactly that one binding to the enumeration, raises the binding count by one and the type count only for a new type |
| `Collection.AddAllKeepsValid` | src/Lindi.Ioc/BindingCollection.cs:49-56 | adding a list keeps the invariant and adds exactly its bindings, counted once each |
| `Collection.RemoveKeepsValid` | src/Lindi.Ioc/BindingCollection.cs:58-61 | removal keeps the invariant, answers true exactly for an enumerated binding, and then takes exactly one copy out, lowering the count by one |
| `Collection.GroupingMatchesAdding` | src/Lindi.Ioc/BindingCollection.cs:25-28 | grouping a list at once builds the same collection as adding its bindings one by one |
| `Collection.ConstructorMatchesAddRange` | src/Lindi.Ioc/BindingCollection.cs:25-56 | on a list without nulls the constructor and AddRange on an empty collection agree, and the result holds each binding of the list once |
| `Collection.OneTypeKeepsOrder` | src/Lindi.Ioc/BindingCollection.cs:30-33 | bindings of one type are enumerated in the order they were given |
| `Collection.ResolveIsFirstOfAll` | src/Lindi.Ioc/BindingCollection.cs:63-101 | Resolve gives the first of the values ResolveAll gives, and fails exactly as ResolveAll does when it fails |
| `Collection.ResolveEachSnoc` | src/Lindi.Ioc/BindingCollection.cs:95 | a binding at the end of a list is resolved last, against the heap the earlier ones left, and only when they all succeeded |
| `Collection.AddKeepsResolve` | src/Lindi.Ioc/BindingCollection.cs:46-68 | adding a binding leaves Resolve unchanged for a type already registered and for every other type: the first binding added answers |
| `Collection.AddThenResolveAll` | src/Lindi.Ioc/BindingCollection.cs:46-95 | after adding a binding, ResolveAll for its type resolves the earlier bindings as before and then the new one against the heap they left |
| `Collection.RemoveThenResolve` | src/Lindi.Ioc/BindingCollection.cs:58-68 | after a removal Resolve answers with the same first binding, unless the removed binding was that first one; then the next one answers, and with none left the type is missing |
| `Collection.MissingTypeFails` | src/Lindi.Ioc/BindingCollection.cs:70-73 | a missing type is a resolution error for that type over a KeyNotFoundException, from Resolve and ResolveAll alike |
| `Collection.ResolveAllInOrder` | src/Lindi.Ioc/BindingCollection.cs:90-101 | with two bindings of one type around one of another, ResolveAll gives the two values in the order added |
| `Collection.RemoveOneOfThree` | src/Lindi.Ioc/BindingCollection.cs:58-61 | removing one of three bindings answers true and leaves two; removing null answers false and changes nothing |

## Left out

- Thread safety is not modelled. This covers `Lazy<T>`'s locking mode, the `Monitor` lock built by `ExpressionHelpers.Lock` and the double-checked lookup around it. The model is sequential, and the second check under the lock can never differ from the first.
- The scoped caches are `ConditionalWeakTable`s. Here they are plain maps that never lose an entry, so weak references and garbage collection are left out.
- Reflection and expression compilation are not modelled. This covers the generic-type tests, `GetPropertyValue`, `Expression.Lambda(...).Compile()` and the casts. An expression is evaluated directly, and a binding is lazy exactly when it is a lazy or scoped binding.
- `GetValueFromParameter` compiles and runs the marker's argument expression. The model takes the argument's value as given: a binding or null.
- Inliner shapes: the inliner only recognises `((IBinding<T>)b[i]).Resolve()` with a constant index, and the builder emits only that shape. `b[i]` used without that cast, or with a computed index, does not occur in the model.
- The text of `InvalidOperationException` when a lambda is compiled with an unbound parameter is shortened to name the parameter and its array type.
- `BindingExtensions.Where` returns null whatever its arguments are. It builds nothing and has nothing to state.
- The implicit conversions from an array and from a list, and `ToCollection`, all call the constructor. `FromSeq` models that.
- `Collection.Remove`: a binding is removed when it is equal to one in the collection, not when it is the same reference. Equal bindings here are structurally identical, so they resolve alike.
- `Collection.Enumerate`: types are enumerated in the order first added. After a type is removed and another added, a `Dictionary` may reuse the freed slot and enumerate the new type earlier. That reuse order is not modelled.
- `Collection.ResolveType`: a `KeyNotFoundException` from inside a binding's resolve would also be caught and wrapped. Every failure that leaves `Evaluation.Resolve` is already a resolution error (its contract says so), so that catch never applies. It is not repeated.
- Casting a filed binding to `IBinding<T>` in the generic Resolve and ResolveAll is not modelled. A binding's type is the type it produces.
- `LazyBindings.BuildConstructor`: it uses the corrected inliner and has no compile step. As written, a non-lazy dependency leaves `b[i]` in a parameterless lambda and compiling it fails. That path is modelled separately by `Inlining.CompileAsWritten` (see "Findings").
- `Evaluation.Resolve`: it runs the flattened body directly, with the corrected inliner. A parameter in a hand-built construction expression therefore fails when the body is evaluated, not when it is compiled on first resolve; both failures are reported wrapped under the binding's type.
- `LazyBindings.ResolveConstructor`: its own contract fixes the error only for a `throw` body. That it never adds a wrapping layer, for any body, is stated by `LazyBindings.ConstructorBindingWrapsBindToConstructor`.
- Scope keys: a `ConditionalWeakTable` compares keys by reference. The model compares them by value. For an object that has not been injected into since it was stored, this is the same, since each carries its allocation id; a copy with injected fields is a different key (see `Injection.Inject`). Two equal strings or boxed values that are distinct .NET instances would share one cache entry in the model but not in the program.
- Selectors are pure in the model: a fixed key, the ambient value, or an exception. A selector that allocates, or that reads and changes other state, is not modelled.
- `Linq.Wrap`: `SetBinding` updates the group object in place, so every holder of the `GroupBy` result sees the new inner binding. The model returns the updated binding as a new value instead. Other references to the group keep the unset copy, and that is not represented. Neither is a group already resolved before `Wrap`, which would keep the constructor built from its null body; only the cell model shows that, in `Scopes.EarlyResolveSticks`. `Linq.WrapResolves` describes a group not resolved before it was wrapped.
- `Injection.Inject`: the action writes fields into the object itself, so in the program the writes are visible through every reference to it. The model returns an updated copy with the same id. A copy held elsewhere, such as in a scope cache, as the ambient value or in an earlier resolve result, keeps its old fields.
- `Exceptions.TypeString`: a type's text is its simple name with its type arguments. The namespace and the `` `1 `` arity suffix that .NET prints are left out.
- `Graph.RuntimeType`: the scoped binding's type lists only the produced type. The selector's value type, the second type argument of `ValueScopedBinding`, is dropped.
- `Extraction.ParameterMessage`: the "(ParamName: …) " prefix that the .NET message carries is left out.
- Integer width is irrelevant to the core. Object ids and cache ids are unbounded naturals.

## Findings

| source | as written | input that shows it | evidently intended | confidence | as-written member | corrected member |
|---|---|---|---|---|---|---|
| src/LINDI.Core/Bindings/LazyConstructorBinding.cs:127-158 | when the indexed dependency is not a lazy constructor binding, the inliner keeps `((IBinding<T>)b[i]).Resolve()` unchanged; the result is then wrapped in a lambda with no parameters (line 119) and compiled (line 77), so `b` is unbound and compilation throws InvalidOperationException, which the first resolve reports as a BindingResolutionException | `from b in Bind<IHasSample>() select new HasSample(Dependency(c))` with `c` a ConstructorBinding (`() => new Sample()`) | a non-lazy dependency is resolved directly, `c.Resolve()`, so the binding yields a HasSample around a new Sample | not executed | `Flattening.NonLazyDependencyAsWritten` | `Inlining.Inline` |
