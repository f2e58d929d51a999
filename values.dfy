/** The dynamically typed values that flow through the scraper's attribute
    dictionaries and setters, Python's truthiness and `str()` on them, and
    the exceptions the modelled code raises. */
module Values {
  import opened Wrappers
  import opened PyInt

  /** Python `None`, an `int` or a `str`. */
  datatype Value = Null | Int(i: int) | Str(s: string)

  /** The exceptions raised by the modelled operations. */
  datatype Error =
    | FormatError(msg: Option<string>)  // ScholarUtils.ensure_int, set_citation_format
    | QueryArgumentError                // get_url on an under-constrained query
    | TypeError                         // int(None)
    | AttributeError                    // a tag lookup that found nothing, `None.startswith`
    | IndexError                        // a word index past the end of `split()`
    | KeyError                          // a tag without the attribute looked up
    | ZeroDivisionError                 // a float division by a count of zero

  /** Python's truth value: `None`, `0` and `''` are false. */
  predicate Truthy(v: Value) {
    match v
    case Null => false
    case Int(i) => i != 0
    case Str(s) => s != ""
  }

  /** `str(v)` */
  function ToStr(v: Value): string {
    match v
    case Null => "None"
    case Int(i) => IntToString(i)
    case Str(s) => s
  }

  /** `ScholarUtils.ensure_int`: `int(v)`, with the `ValueError` of a
      non-numeric string turned into a `FormatError` carrying `msg`; the
      `TypeError` of `int(None)` is not caught. */
  function EnsureInt(v: Value, msg: Option<string>): Result<int, Error> {
    match v
    case Null => Failure(TypeError)
    case Int(i) => Success(i)
    case Str(s) =>
      match ParseInt(s)
      case Some(n) => Success(n)
      case None => Failure(FormatError(msg))
  }

  /** `ensure_int` accepts an int and its decimal text alike, and refuses
      `None`. */
  lemma EnsureIntAcceptsNumbers(n: int, msg: Option<string>)
    ensures EnsureInt(Int(n), msg) == Success(n)
    ensures EnsureInt(Str(IntToString(n)), msg) == Success(n)
    ensures EnsureInt(Null, msg) == Failure(TypeError)
  {
    ParseIntOfIntToString(n);
  }
}
