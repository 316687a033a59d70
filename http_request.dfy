/** The immutable parsed request (HttpRequest.java). */
module HttpRequests {
  import opened Text
  import opened HttpMethods

  datatype HttpRequest = HttpRequest(
    httpMethod: HttpMethod,
    version: string,
    url: string,
    fields: map<string, string>)  // keyed by lower-case field names

  /**
   * The constructor: the method string is mapped through `getMethod`; the
   * version, the url and the field map are kept exactly as given, and the
   * getters return them.
   */
  function NewRequest(methodName: string, version: string, url: string, fields: map<string, string>): (r: HttpRequest)
    ensures r.httpMethod != UNKNOWN ==> Name(r.httpMethod) == ToUpper(methodName)
    ensures r.httpMethod == UNKNOWN ==> forall k: HttpMethod :: k != UNKNOWN ==> Name(k) != ToUpper(methodName)
    ensures r.version == version && r.url == url && r.fields == fields
  {
    HttpRequest(GetMethod(methodName), version, url, fields)
  }

  /**
   * `getUrlWithoutParams`: the url up to, not including, its first '?'. The
   * source passes `indexOf`'s -1 straight to `substring` and throws when there
   * is no '?', so the model requires one.
   */
  function UrlWithoutParams(r: HttpRequest): (path: string)
    requires '?' in r.url
    ensures |path| < |r.url| && r.url[..|path| + 1] == path + "?"
    ensures '?' !in path
  {
    IndexOfFirst(r.url, '?');
    r.url[..IndexOf(r.url, '?')]
  }
}
