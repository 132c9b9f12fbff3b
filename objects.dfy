/** The shapes of the `Object` values that callers bind to template variables and parameters. */
module Objects {
  import opened Text

  /**
   * A Java object as the library sees it: its run-time class decides how it is
   * rendered, and its `toString()` what text it contributes. Collections hold
   * non-null elements, given by their `toString()`; maps are String-keyed with
   * non-null values, given as (key, `toString()` of the value). Both are listed
   * in iteration order.
   */
  datatype Obj =
    | Null
    | JString(s: string)
    | JNumber(text: string)
    | JBoolean(b: bool)
    | JCharSequence(text: string)           // a CharSequence that is not a String
    | JCollection(items: seq<string>)
    | JMap(entries: seq<(string, string)>)
    | JOther(text: string)                  // any other class, by its toString()
  {
    /** Neither null, nor a Collection, nor a Map. */
    predicate IsScalar() {
      !Null? && !JCollection? && !JMap?
    }

    /** `toString()`; collections and maps print as java.util's AbstractCollection and AbstractMap do. */
    function ToString(): string
      requires !Null?
    {
      match this
      case JString(s) => s
      case JNumber(t) => t
      case JBoolean(b) => if b then "true" else "false"
      case JCharSequence(t) => t
      case JOther(t) => t
      case JCollection(items) => "[" + Join(items, ", ") + "]"
      case JMap(entries) =>
        "{" + Join(seq(|entries|, k requires 0 <= k < |entries| => entries[k].0 + "=" + entries[k].1), ", ") + "}"
    }
  }
}
