/** The mutable builder for requests (HttpRequestFactory.java). */
module HttpRequestFactories {
  import opened Text
  import opened HttpMethods
  import opened HttpRequests

  /** The field map after `put(key.toLowerCase(), value)`. */
  function WithField(fields: map<string, string>, key: string, value: string): (r: map<string, string>)
    ensures r.Keys == fields.Keys + {ToLower(key)}
    ensures r[ToLower(key)] == value
    ensures forall k :: k in fields && k != ToLower(key) ==> r[k] == fields[k]
  {
    fields[ToLower(key) := value]
  }

  /**
   * Last write wins across spellings: a second `setHeaderField` whose key
   * differs only in case replaces the first value and leaves nothing else behind.
   */
  lemma FieldLastWriteWins(fields: map<string, string>, k1: string, v1: string, k2: string, v2: string)
    requires ToLower(k1) == ToLower(k2)
    ensures WithField(WithField(fields, k1, v1), k2, v2) == WithField(fields, k2, v2)
  {
  }

  /** Stored keys are lower case: looking a field up by any spelling of its name finds it. */
  lemma FieldKeyIsLowerCase(fields: map<string, string>, key: string, value: string, probe: string)
    requires ToLower(probe) == ToLower(key)
    ensures ToLower(probe) in WithField(fields, key, value)
    ensures WithField(fields, key, value)[ToLower(probe)] == value
  {
  }

  class HttpRequestFactory {
    var methodName: string
    var version: string
    var url: string
    var fields: map<string, string>

    /** The private constructor: three empty strings and an empty field map. */
    constructor ()
      ensures methodName == "" && version == "" && url == "" && fields == map[]
    {
      methodName, version, url := "", "", "";
      fields := map[];
    }

    /** `instance()`: a new factory on every call, sharing nothing with earlier ones. */
    static method Instance() returns (f: HttpRequestFactory)
      ensures fresh(f)
      ensures f.methodName == "" && f.version == "" && f.url == "" && f.fields == map[]
    {
      f := new HttpRequestFactory();
    }

    method SetMethod(m: string)
      modifies this
      ensures methodName == m
      ensures version == old(version) && url == old(url) && fields == old(fields)
    {
      methodName := m;
    }

    method SetVersion(v: string)
      modifies this
      ensures version == v
      ensures methodName == old(methodName) && url == old(url) && fields == old(fields)
    {
      version := v;
    }

    method SetUrl(u: string)
      modifies this
      ensures url == u
      ensures methodName == old(methodName) && version == old(version) && fields == old(fields)
    {
      url := u;
    }

    method SetHeaderField(key: string, value: string)
      modifies this
      ensures fields == WithField(old(fields), key, value)
      ensures methodName == old(methodName) && version == old(version) && url == old(url)
    {
      fields := fields[ToLower(key) := value];
    }

    /**
     * `getRequest`: a request carrying the current method (mapped through
     * `getMethod`), version and url and a copy of the fields. The result is
     * a value, so later setter calls on the factory cannot reach it.
     */
    method GetRequest() returns (r: HttpRequest)
      ensures r.httpMethod != UNKNOWN ==> Name(r.httpMethod) == ToUpper(methodName)
      ensures r.httpMethod == UNKNOWN ==> forall k: HttpMethod :: k != UNKNOWN ==> Name(k) != ToUpper(methodName)
      ensures r.version == version && r.url == url && r.fields == fields
      ensures r == NewRequest(methodName, version, url, fields)
    {
      var copy := map k | k in fields :: fields[k];
      r := NewRequest(methodName, version, url, copy);
    }
  }
}
