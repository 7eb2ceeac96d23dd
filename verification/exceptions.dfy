/** Types, the exceptions the resolution engine raises, and the failure-compatible
    wrappers every other module returns instead of throwing. */
module Exceptions {

  /** A runtime type: a plain named type (`ISample`) or a closed generic
      (`LazyConstructorBinding<ISample>`). */
  datatype Type = Named(name: string) | Generic(definition: string, args: seq<Type>)

  datatype Option<+T> = None | Some(value: T)

  /** The exceptions the model distinguishes. `UserError` stands for anything
      user-supplied construction code throws; `Resolution` is
      BindingResolutionException, whose binding type is never null. */
  datatype Exception =
    | ArgumentNull(paramName: string)
    | Argument(message: string)
    | InvalidOperation(message: string)
    | IndexOutOfRange
    | KeyNotFound
    | NullReference
    | UserError(code: nat)
    | Resolution(message: string, bindingType: Type, inner: Option<Exception>)

  datatype Result<+T> = Success(value: T) | Failure(error: Exception) {
    predicate IsFailure() { Failure? }
    function PropagateFailure<U>(): Result<U>
      requires Failure?
    {
      Failure(error)
    }
    function Extract(): T
      requires Success?
    {
      value
    }
  }

  /** The message the two-argument BindingResolutionException constructor generates. */
  function DefaultMessage(bindingType: Type): string
  {
    "Binding resolution failed for a binding of type " + TypeString(bindingType)
      + ". Check out the inner exception for more details."
  }

  function TypeString(t: Type): string
  {
    match t
    case Named(n) => n
    case Generic(d, args) => d + "[" + TypeListString(args) + "]"
  }

  function TypeListString(ts: seq<Type>): string
  {
    if |ts| == 0 then ""
    else if |ts| == 1 then TypeString(ts[0])
    else TypeString(ts[0]) + "," + TypeListString(ts[1..])
  }

  /** The three-argument constructor: a null binding type is refused, everything
      else is stored exactly as given (a null inner exception included). */
  function NewResolutionError(message: string, bindingType: Option<Type>, inner: Option<Exception>): (r: Result<Exception>)
    ensures bindingType.None? <==> r == Failure(ArgumentNull("bindingType"))
    ensures bindingType.Some? ==> r.Success? && r.value.Resolution?
    ensures r.Success? ==> r.value.message == message && r.value.inner == inner
                           && Some(r.value.bindingType) == bindingType
  {
    match bindingType
    case None => Failure(ArgumentNull("bindingType"))
    case Some(t) => Success(Resolution(message, t, inner))
  }

  /** The two-argument constructor delegates with a generated message. */
  function NewResolutionErrorFor(bindingType: Option<Type>, inner: Option<Exception>): (r: Result<Exception>)
    ensures bindingType.None? <==> r.Failure?
    ensures bindingType.None? ==> r.error == ArgumentNull("bindingType")
    ensures r.Success? ==> r.value.Resolution? && r.value.inner == inner
                           && Some(r.value.bindingType) == bindingType
                           && r.value.message == DefaultMessage(bindingType.value)
  {
    var message := if bindingType.Some? then DefaultMessage(bindingType.value) else DefaultMessage(Named(""));
    NewResolutionError(message, bindingType, inner)
  }

  /** The exception a binding of runtime type `t` throws when `cause` escapes its
      resolution logic. */
  function Wrapped(t: Type, cause: Exception): (e: Exception)
    ensures e.Resolution? && e.bindingType == t && e.inner == Some(cause)
    ensures NewResolutionErrorFor(Some(t), Some(cause)) == Success(e)
  {
    Resolution(DefaultMessage(t), t, Some(cause))
  }

  /** How many BindingResolutionException layers sit on top of the root cause. */
  function WrapDepth(e: Exception): nat
  {
    match e
    case Resolution(_, _, Some(inner)) => 1 + WrapDepth(inner)
    case _ => 0
  }

  /** The innermost cause of a chain of BindingResolutionExceptions. */
  function RootCause(e: Exception): Exception
  {
    match e
    case Resolution(_, _, Some(inner)) => RootCause(inner)
    case _ => e
  }
}
