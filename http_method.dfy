/** The request methods the server distinguishes (HttpMethod.java). */
module HttpMethods {
  import opened Text

  datatype HttpMethod = HEAD | GET | PUT | POST | DELETE | UNKNOWN

  /** `Enum.name()`. */
  function Name(m: HttpMethod): string {
    match m
    case HEAD => "HEAD"
    case GET => "GET"
    case PUT => "PUT"
    case POST => "POST"
    case DELETE => "DELETE"
    case UNKNOWN => "UNKNOWN"
  }

  /**
   * `getMethod`: the constant whose name is the upper-cased argument, and
   * UNKNOWN when no constant has that name (the caught `valueOf` failure).
   */
  function GetMethod(methodName: string): (m: HttpMethod)
    ensures m != UNKNOWN ==> Name(m) == ToUpper(methodName)
    ensures m == UNKNOWN ==> forall k: HttpMethod :: k != UNKNOWN ==> Name(k) != ToUpper(methodName)
  {
    var upper := ToUpper(methodName);
    if upper == "HEAD" then HEAD
    else if upper == "GET" then GET
    else if upper == "PUT" then PUT
    else if upper == "POST" then POST
    else if upper == "DELETE" then DELETE
    else UNKNOWN
  }

  /** Names are pairwise distinct and already upper case. */
  lemma NamesDistinctUpper(a: HttpMethod, b: HttpMethod)
    ensures Name(a) == Name(b) ==> a == b
    ensures ToUpper(Name(a)) == Name(a)
  {
  }

  /** Round trip: looking up a constant's own name gives the constant back (all six). */
  lemma GetMethodOfName(m: HttpMethod)
    ensures GetMethod(Name(m)) == m
  {
    NamesDistinctUpper(m, m);
  }

  /** Case never matters: any spelling with the same upper-case form gives the same method. */
  lemma GetMethodCaseInsensitive(s: string, t: string)
    requires ToUpper(s) == ToUpper(t)
    ensures GetMethod(s) == GetMethod(t)
  {
  }

  /** Matching is exactly "upper-cased name equals": `GetMethod(s) == m` iff the names agree. */
  lemma GetMethodExact(s: string, m: HttpMethod)
    requires m != UNKNOWN
    ensures GetMethod(s) == m <==> ToUpper(s) == Name(m)
  {
    if ToUpper(s) == Name(m) && GetMethod(s) != UNKNOWN {
      NamesDistinctUpper(GetMethod(s), m);
    }
  }
}
