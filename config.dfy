/** The central configuration: the server address and credentials, the endpoint
    URLs derived from them, the authorisation header and the REST URL resolution. */
module Config {
  import opened Text

  datatype Option<T> = None | Some(value: T)

  /** The values edited by hand in `window.CONFIG`. */
  datatype Settings = Settings(
    host: string,       // protocol, host and optional port
    context: string,    // the server's context path
    username: string,
    password: string,
    maxFeatures: nat)

  const Defaults: Settings := Settings("http://localhost:8080", "geoserver", "admin", "geoserver", 1000)

  /** `GEOSERVER_BASE_URL`. */
  function BaseUrl(c: Settings): string
  {
    c.host + "/" + c.context
  }

  function RestUrl(c: Settings): string
  {
    BaseUrl(c) + "/rest"
  }

  function WmsUrl(c: Settings): string
  {
    BaseUrl(c) + "/wms"
  }

  function WfsUrl(c: Settings): string
  {
    BaseUrl(c) + "/wfs"
  }

  /** The base URL is the host, a slash and the context path; each endpoint is the
      base URL followed by its own path segment, so the three are distinct. */
  lemma DerivedUrlsSpec(c: Settings)
    ensures StartsWith(BaseUrl(c), c.host) && BaseUrl(c)[|c.host|] == '/'
    ensures BaseUrl(c)[|c.host| + 1..] == c.context
    ensures StartsWith(RestUrl(c), BaseUrl(c)) && RestUrl(c)[|BaseUrl(c)|..] == "/rest"
    ensures StartsWith(WmsUrl(c), BaseUrl(c)) && WmsUrl(c)[|BaseUrl(c)|..] == "/wms"
    ensures StartsWith(WfsUrl(c), BaseUrl(c)) && WfsUrl(c)[|BaseUrl(c)|..] == "/wfs"
    ensures RestUrl(c) != WmsUrl(c) && WmsUrl(c) != WfsUrl(c) && RestUrl(c) != WfsUrl(c)
  {
    var b := BaseUrl(c);
    assert RestUrl(c)[|b|..] == "/rest";
    assert WmsUrl(c)[|b|..] == "/wms";
    assert WfsUrl(c)[|b|..] == "/wfs";
    assert WmsUrl(c)[|b| + 1] == 'w' && WfsUrl(c)[|b| + 1] == 'w';
    assert WmsUrl(c)[|b| + 2] == 'm' && WfsUrl(c)[|b| + 2] == 'f';
  }

  /** With the shipped settings the WMS endpoint is the one the layer panel writes out. */
  lemma DefaultEndpoints()
    ensures RestUrl(Defaults) == "http://localhost:8080/geoserver/rest"
    ensures WmsUrl(Defaults) == "http://localhost:8080/geoserver/wms"
    ensures WfsUrl(Defaults) == "http://localhost:8080/geoserver/wfs"
  {
  }

  /** The test `/^https?:/i`: `http:` or `https:` at the start, in any letter case. */
  predicate IsAbsolute(path: string)
  {
    && |path| >= 5
    && LowerChar(path[0]) == 'h' && LowerChar(path[1]) == 't'
    && LowerChar(path[2]) == 't' && LowerChar(path[3]) == 'p'
    && (path[4] == ':' || (|path| >= 6 && LowerChar(path[4]) == 's' && path[5] == ':'))
  }

  /** The regular expression test agrees with a prefix test on the lower-cased path. */
  lemma IsAbsoluteIffSchemePrefix(path: string)
    ensures IsAbsolute(path) <==> StartsWith(Lower(path), "http:") || StartsWith(Lower(path), "https:")
  {
    var l := Lower(path);
    if |path| >= 5 {
      assert l[..5] == [l[0], l[1], l[2], l[3], l[4]];
    }
    if |path| >= 6 {
      assert l[..6] == [l[0], l[1], l[2], l[3], l[4], l[5]];
    }
  }

  /** The URL `restFetch` requests: an absolute `path` as it is, anything else
      appended to the REST endpoint. */
  function ResolveUrl(c: Settings, path: string): (url: string)
    ensures IsAbsolute(path) ==> url == path
    ensures !IsAbsolute(path) ==> StartsWith(url, RestUrl(c)) && url[|RestUrl(c)|..] == path
  {
    if IsAbsolute(path) then path else RestUrl(c) + path
  }

  /** Anything that begins with an absolute URL is absolute. */
  lemma AbsoluteExtends(p: string, q: string)
    requires IsAbsolute(p)
    ensures IsAbsolute(p + q)
  {
    assert (p + q)[..|p|] == p;
  }

  /** When the host is an http(s) URL, resolving a resolved URL changes nothing. */
  lemma ResolveUrlIdempotent(c: Settings, path: string)
    requires IsAbsolute(c.host)
    ensures ResolveUrl(c, ResolveUrl(c, path)) == ResolveUrl(c, path)
  {
    if !IsAbsolute(path) {
      AbsoluteExtends(c.host, "/" + c.context + "/rest" + path);
      assert RestUrl(c) + path == c.host + ("/" + c.context + "/rest" + path);
    }
  }

  /** HTTP header names to values. */
  type Headers = map<string, string>

  /** `buildAuthHeader(extra)`: the basic-auth header, then every entry of `extra`,
      which overrides it. `btoa` is the browser's Base64 encoder. */
  function BuildAuthHeader(c: Settings, extra: Headers, btoa: string -> string): (h: Headers)
    ensures h.Keys == extra.Keys + {"Authorization"}
    ensures forall k :: k in extra ==> h[k] == extra[k]
    ensures "Authorization" !in extra ==>
      h["Authorization"] == "Basic " + btoa(c.username + ":" + c.password)
  {
    map["Authorization" := "Basic " + btoa(c.username + ":" + c.password)] + extra
  }

  /** The options passed to `restFetch`; members other than the headers are carried through. */
  datatype FetchOptions = FetchOptions(httpMethod: Option<string>, body: Option<string>, headers: Option<Headers>)

  /** What `restFetch(path, options)` hands to `fetch`. */
  datatype Request = Request(url: string, options: FetchOptions)

  /** `restFetch` without the network call: the resolved URL and the options with
      the authorisation header merged into their headers. */
  function RestFetch(c: Settings, path: string, options: FetchOptions, btoa: string -> string): (r: Request)
    ensures r.url == ResolveUrl(c, path)
    ensures r.options.httpMethod == options.httpMethod && r.options.body == options.body
    ensures r.options.headers.Some?
    ensures var extra := if options.headers.Some? then options.headers.value else map[];
      r.options.headers.value == BuildAuthHeader(c, extra, btoa)
  {
    var extra := match options.headers
      case Some(h) => h
      case None => map[];
    Request(ResolveUrl(c, path), options.(headers := Some(BuildAuthHeader(c, extra, btoa))))
  }
}
