/** Python exceptions as far as the retry decorator looks at them: the classes
    an exception is an instance of, and its message. */
module Exceptions {

  type ClassName = string

  /** A raised exception. `mro` holds the names of every class the exception
      is an instance of (its class and all of that class's bases). */
  datatype Exception = Exception(mro: set<ClassName>, message: string)

  /** The test of an `except exceptions as e:` clause, where `exceptions` is
      a class or a tuple of classes, each deriving from `BaseException`: one
      of them is in the exception's MRO, that is, the exception's class is a
      subclass of it. */
  predicate Catches(e: Exception, exceptions: set<ClassName>) {
    e.mro * exceptions != {}
  }

  /** `except (A, B)` catches what `except A` or `except B` catches: the
      classes of a tuple are tried together. */
  lemma CatchesTuple(e: Exception, a: set<ClassName>, b: set<ClassName>)
    ensures Catches(e, a + b) <==> Catches(e, a) || Catches(e, b)
  {
    if Catches(e, a + b) {
      var c :| c in e.mro * (a + b);
      assert c in e.mro * a || c in e.mro * b;
    }
    if Catches(e, a) {
      var c :| c in e.mro * a;
      assert c in e.mro * (a + b);
    }
    if Catches(e, b) {
      var c :| c in e.mro * b;
      assert c in e.mro * (a + b);
    }
  }

  /** The outcome of one call: a value returned, or an exception raised. */
  datatype Outcome<+V> = Returned(value: V) | Raised(error: Exception)
}
