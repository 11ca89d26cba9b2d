/** The Express extension's route-path helpers (`getPath`, `getRouterPrefix`)
    and the data records its HTTP method and handler-parameter decorators store. */
module RouteHelpers {
  import opened Wrappers
  import opened Metadata

  /** True when `s` begins with a slash (JavaScript `s.charAt(0) === '/'`;
      `charAt` of the empty string is `''`, which is not a slash). */
  predicate StartsWithSlash(s: string)
  {
    |s| > 0 && s[0] == '/'
  }

  /** True when `s` ends with a slash (`s.charAt(s.length - 1) === '/'`). */
  predicate EndsWithSlash(s: string)
  {
    |s| > 0 && s[|s| - 1] == '/'
  }

  /** True when `suffix` is the tail of `s`. */
  predicate EndsWith(s: string, suffix: string)
  {
    |suffix| <= |s| && s[|s| - |suffix|..] == suffix
  }

  /** The route path of a handler. An absent or empty path (both falsy in
      JavaScript) is the root; otherwise the path gets a leading slash if it
      lacks one, and is kept as it is if it has one. */
  function GetPath(path: Option<string>): (r: string)
    ensures StartsWithSlash(r)
    ensures path == None || path == Some("") ==> r == "/"
    ensures path.Some? && path.value != "" ==>
      EndsWith(r, path.value) && |r| <= |path.value| + 1
    ensures path.Some? && StartsWithSlash(path.value) ==> r == path.value
    ensures path.Some? && path.value != "" && !StartsWithSlash(path.value) ==>
      |r| == |path.value| + 1
  {
    if path.Some? && path.value != "" then
      (if StartsWithSlash(path.value) then path.value else "/" + path.value)
    else "/"
  }

  /** Normalising a path twice changes nothing the first pass did not. */
  lemma GetPathIdempotent(path: Option<string>)
    ensures GetPath(Some(GetPath(path))) == GetPath(path)
  {
  }

  /** The router prefix of an extension or controller. The empty string stays
      empty; any other input loses at most one trailing slash and then gains a
      leading slash if it lacks one. */
  function GetRouterPrefix(path: string): (r: string)
    ensures path == "" ==> r == ""
    ensures path != "" ==> StartsWithSlash(r)
    ensures path == "/" ==> r == "/"
    ensures StartsWithSlash(path) && !EndsWithSlash(path) ==> r == path
    ensures path != "" && !EndsWithSlash(path) ==> r == GetPath(Some(path))
    ensures path != "" && EndsWithSlash(path) ==> r == GetPath(Some(path[..|path| - 1]))
  {
    if path == "" then path
    else
      var trimmed := if EndsWithSlash(path) then path[..|path| - 1] else path;
      if StartsWithSlash(trimmed) then trimmed else "/" + trimmed
  }

  /** Only one trailing slash is removed: a prefix ending in two slashes
      still ends in one afterwards. */
  lemma RouterPrefixTrimsOneSlash(path: string)
    requires |path| >= 2 && path[|path| - 1] == '/' && path[|path| - 2] == '/'
    ensures EndsWithSlash(GetRouterPrefix(path))
  {
  }

  /** A prefix that already has a leading slash and no trailing slash (or is
      exactly the root) is a fixed point. */
  lemma RouterPrefixFixedPoint(path: string)
    requires StartsWithSlash(path)
    requires path == "/" || !EndsWithSlash(path)
    ensures GetRouterPrefix(path) == path
  {
  }

  /** The HTTP verb a handler decorator names; the values of the extension's
      `HttpMethod` enum are not part of this model. */
  type HttpMethod = string

  /** Where a handler parameter's value comes from; the values of the
      `RouteHandlerParam` enum are not part of this model. */
  type RouteHandlerParam = string

  /** The key of a decorated class member: a name or a symbol. */
  datatype PropertyKey = NameKey(name: string) | SymbolKey(description: string)

  /** What a decorator's `fn` is handed when it runs: the decorated target,
      the member key, and for a parameter decorator the parameter index. */
  datatype DecorationContext = DecorationContext(target: Class, propKey: PropertyKey, index: Option<nat>)

  /** Data stored by an HTTP method decorator on a handler. The member key
      is stored as it comes: `<string>propKey` is a type assertion only, so a
      symbol key stays a symbol. */
  datatype HttpMethodData = HttpMethodData(name: PropertyKey, httpMethod: HttpMethod, httpPath: string)

  /** Data stored by a handler-parameter decorator. */
  datatype HandlerParamData = HandlerParamData(paramType: RouteHandlerParam, key: Option<string>)

  /** The `fn` that `httpMethodFactory(httpMethod, path)` gives the method
      decorator: the record names the decorated member, carries the verb,
      and holds the normalised route path, whatever the target. */
  function HttpMethodRecord(httpMethod: HttpMethod, path: Option<string>): (fn: DecorationContext -> HttpMethodData)
    ensures forall c :: fn(c).name == c.propKey && fn(c).httpMethod == httpMethod
    ensures forall c :: fn(c).httpPath == GetPath(path)
    ensures forall c1: DecorationContext, c2: DecorationContext :: c1.propKey == c2.propKey ==> fn(c1) == fn(c2)
  {
    (c: DecorationContext) => HttpMethodData(c.propKey, httpMethod, GetPath(path))
  }

  /** The route path a method decorator stores is already normalised: it
      starts with a slash, ends with the given path when one is given, and
      normalising it again changes nothing. */
  lemma StoredPathIsNormalised(httpMethod: HttpMethod, path: Option<string>, c: DecorationContext)
    ensures StartsWithSlash(HttpMethodRecord(httpMethod, path)(c).httpPath)
    ensures path.Some? && path.value != "" ==> EndsWith(HttpMethodRecord(httpMethod, path)(c).httpPath, path.value)
    ensures GetPath(Some(HttpMethodRecord(httpMethod, path)(c).httpPath)) == HttpMethodRecord(httpMethod, path)(c).httpPath
  {
    GetPathIdempotent(path);
  }

  /** The `fn` that `handlerParamFactory(paramType, key)` gives the parameter
      decorator: it ignores the decoration context entirely, so every
      parameter it decorates gets the same record of the kind and the key. */
  function HandlerParamRecord(paramType: RouteHandlerParam, key: Option<string>): (fn: DecorationContext -> HandlerParamData)
    ensures forall c1, c2 :: fn(c1) == fn(c2)
    ensures forall c :: fn(c).paramType == paramType && fn(c).key == key
  {
    (c: DecorationContext) => HandlerParamData(paramType, key)
  }

  /** Distinct factory arguments give distinct records: the record determines
      the parameter kind and key it was built from. */
  lemma HandlerParamRecordDeterminesArguments(p1: RouteHandlerParam, k1: Option<string>,
                                              p2: RouteHandlerParam, k2: Option<string>, c: DecorationContext)
    requires HandlerParamRecord(p1, k1)(c) == HandlerParamRecord(p2, k2)(c)
    ensures p1 == p2 && k1 == k2
  {
  }
}
