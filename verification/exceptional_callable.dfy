/** `ExceptionalCallable.call`: run the callable and let through only what its
    `throws E` clause admits, wrapping anything else in an
    `UnhandledException`. Class names stand for classes; the subclass relation
    (`Class.isAssignableFrom`, read backwards) is a parameter. */
module ExceptionalCallables {
  import opened Wrappers

  /** A thrown object: its runtime class, its message and its cause. */
  datatype Throwable = Throwable(className: string, message: string, cause: Option<Throwable>)

  /** How a call ended: normally with a value, or by throwing. */
  datatype Outcome<V> = Returned(value: V) | Threw(thrown: Throwable)

  const ExceptionClass := "java.lang.Exception"
  const RuntimeExceptionClass := "java.lang.RuntimeException"
  const UnhandledExceptionClass := "bayern.steinbrecher.javaUtility.UnhandledException"
  const UnhandledMessage := "The callable yielded an exception which it is not supposed to throw"

  /** `isSubclass(c, d)`: class `c` is `d` or extends it, i.e.
      `d.isAssignableFrom(c)`. */
  ghost predicate IsClassHierarchy(isSubclass: (string, string) -> bool) {
    && (forall c :: isSubclass(c, c))
    && (forall c, d, e :: isSubclass(c, d) && isSubclass(d, e) ==> isSubclass(c, e))
  }

  /** `call(exceptionType)` given what `callUnsafe()` did. A value is returned
      unchanged; a throwable that is not an `Exception` escapes the `catch`; an
      exception assignable to `exceptionType` is rethrown as is; any other
      exception is replaced by an `UnhandledException` caused by it. */
  function Call<V>(callUnsafe: Outcome<V>, exceptionType: string, isSubclass: (string, string) -> bool): (r: Outcome<V>)
    ensures callUnsafe.Returned? ==> r == callUnsafe
    ensures callUnsafe.Threw? ==> r.Threw?
    ensures callUnsafe.Threw? && !isSubclass(callUnsafe.thrown.className, ExceptionClass) ==> r == callUnsafe
    ensures r.Threw? && r != callUnsafe ==>
      r.thrown == Throwable(UnhandledExceptionClass, UnhandledMessage, Some(callUnsafe.thrown))
  {
    match callUnsafe
    case Returned(v) => Returned(v)
    case Threw(ex) =>
      if !isSubclass(ex.className, ExceptionClass) then Threw(ex)
      else if isSubclass(ex.className, exceptionType) then Threw(ex)
      else Threw(Throwable(UnhandledExceptionClass, UnhandledMessage, Some(ex)))
  }

  /** An exception of class `E` or of a subclass of `E` is rethrown as the same
      object. `E extends Exception` by the interface's type bound. */
  lemma CallRethrowsDeclared<V>(ex: Throwable, exceptionType: string, isSubclass: (string, string) -> bool)
    requires IsClassHierarchy(isSubclass)
    requires isSubclass(exceptionType, ExceptionClass)
    requires isSubclass(ex.className, exceptionType)
    ensures Call(Outcome<V>.Threw(ex), exceptionType, isSubclass) == Threw(ex)
  {
  }

  /** Any other exception is wrapped, with the original as the cause. */
  lemma CallWrapsUndeclared<V>(ex: Throwable, exceptionType: string, isSubclass: (string, string) -> bool)
    requires isSubclass(ex.className, ExceptionClass)
    requires !isSubclass(ex.className, exceptionType)
    ensures Call(Outcome<V>.Threw(ex), exceptionType, isSubclass)
         == Threw(Throwable(UnhandledExceptionClass, UnhandledMessage, Some(ex)))
  {
  }

  /** The throwable `call` throws is either assignable to `E` or unchecked (an
      `Error`, or a `RuntimeException` such as `UnhandledException`), so the
      method's `throws E` clause holds even when the callable broke its own. */
  lemma CallHonoursThrowsClause<V>(callUnsafe: Outcome<V>, exceptionType: string, isSubclass: (string, string) -> bool)
    requires isSubclass(UnhandledExceptionClass, RuntimeExceptionClass)
    ensures var r := Call(callUnsafe, exceptionType, isSubclass);
      r.Threw? ==> || isSubclass(r.thrown.className, exceptionType)
                   || isSubclass(r.thrown.className, RuntimeExceptionClass)
                   || !isSubclass(r.thrown.className, ExceptionClass)
  {
  }

  /** With `E = Exception` nothing is ever wrapped: `call` behaves exactly like
      `callUnsafe`. */
  lemma CallWithExceptionIsTransparent<V>(callUnsafe: Outcome<V>, isSubclass: (string, string) -> bool)
    ensures Call(callUnsafe, ExceptionClass, isSubclass) == callUnsafe
  {
  }
}
