/** Exceptions, null references and optional values of the modelled Java code, as values. */
module Results {

  /** The exceptions the modelled code throws (checked and unchecked alike). */
  datatype Exception =
    | IndexOutOfBounds  // StringIndexOutOfBoundsException and IndexOutOfBoundsException
    | NumberFormat      // Integer.parseInt on a token that is not an int
    | ClassCast         // a cast to String of a value that is not a String
    | NullPointer       // a method called on null
    | IllegalState      // Matcher.group() after a find() that failed
    | IllegalArgument   // IllegalArgumentException
    | InvalidParameter  // the library's InvalidParameterException
    | InvalidValue      // the library's InvalidValueException

  /** A Java reference that may be null. */
  datatype Option<+T> = None | Some(value: T)

  /** A call that either returns a value or throws. */
  datatype Result<+T> = Ok(value: T) | Fail(error: Exception)

  /** The argument of an `equals(Object)` call: null, an object of another class, or one of this class. */
  datatype Ref<+T> = Null | Foreign | Is(obj: T)
}
