/** The site-side CMS client: joins the CMS base URL and an endpoint, sends the
    preview token, and turns a non-OK response into an error. The network
    round trip is a parameter. */
module FetchStrapi {
  import opened Text

  /** `base.replace(/\/$/, '')`: one trailing slash removed. */
  function DropTrailingSlash(s: string): (r: string)
    ensures s == r || s == r + "/"
  {
    if |s| > 0 && s[|s| - 1] == '/' then s[..|s| - 1] else s
  }

  /** `endpoint.replace(/^\//, '')`: one leading slash removed. */
  function DropLeadingSlash(s: string): (r: string)
    ensures s == r || s == "/" + r
  {
    if |s| > 0 && s[0] == '/' then s[1..] else s
  }

  /** The request URL: an absolute endpoint as it is, otherwise base and
      endpoint joined by one slash. */
  function RequestUrl(base: string, endpoint: string): (url: string)
    ensures StartsWith(endpoint, "http") ==> url == endpoint
    ensures !StartsWith(endpoint, "http") ==>
      url == DropTrailingSlash(base) + "/" + DropLeadingSlash(endpoint)
  {
    if StartsWith(endpoint, "http") then endpoint
    else DropTrailingSlash(base) + "/" + DropLeadingSlash(endpoint)
  }

  /** With at most one slash on each side, exactly one slash is left at the
      seam: the URL splits into a base part not ending in `/`, the slash, and
      an endpoint part not starting with `/`. */
  lemma OneSlashAtSeam(base: string, endpoint: string)
    requires !StartsWith(endpoint, "http")
    requires !(|base| >= 2 && base[|base| - 2..] == "//")
    requires !StartsWith(endpoint, "//")
    ensures var url := RequestUrl(base, endpoint);
      exists b, e :: url == b + "/" + e && (b == [] || b[|b| - 1] != '/') && (e == [] || e[0] != '/')
        && (base == b || base == b + "/") && (endpoint == e || endpoint == "/" + e)
  {
    var b := DropTrailingSlash(base);
    var e := DropLeadingSlash(endpoint);
    assert b == [] || b[|b| - 1] != '/' by {
      if b != [] && base == b + "/" {
        assert base[|base| - 2..] == [b[|b| - 1], '/'];
      }
    }
    assert e == [] || e[0] != '/' by {
      if e != [] && endpoint == "/" + e {
        assert endpoint[..2] == ['/', e[0]];
      }
    }
    assert RequestUrl(base, endpoint) == b + "/" + e;
  }

  /** Whether the base ends with a slash and the endpoint starts with one does
      not change the URL. */
  lemma SeamSlashesIrrelevant(b: string, e: string)
    requires b == [] || b[|b| - 1] != '/'
    requires e == [] || e[0] != '/'
    requires !StartsWith(e, "http")
    ensures RequestUrl(b + "/", e) == RequestUrl(b, e)
    ensures RequestUrl(b, "/" + e) == RequestUrl(b, e)
    ensures RequestUrl(b + "/", "/" + e) == RequestUrl(b, e)
  {
    assert (b + "/")[..|b|] == b;
    assert ("/" + e)[1..] == e;
    assert !StartsWith("/" + e, "http") by {
      assert ("/" + e)[0] == '/';
    }
  }

  /** An unset environment variable renders as `undefined` in a template. */
  function Render(v: Option<string>): string {
    if v.Some? then v.value else "undefined"
  }

  /** The request headers. */
  function Headers(token: Option<string>): (h: seq<(string, string)>)
    ensures |h| == 2 && h[0] == ("Authorization", "Bearer " + Render(token))
    ensures h[1] == ("Content-Type", "application/json")
  {
    [("Authorization", "Bearer " + Render(token)), ("Content-Type", "application/json")]
  }

  datatype Response = Response(ok: bool, status: int, body: string)
  datatype Fetched = Json(body: string) | ApiError(message: string)

  /** `fetchStrapi(endpoint)` with `send` standing for `fetch`: the request
      goes to the joined URL with the token's headers; the call succeeds iff
      the response is OK, and a failure names the status. */
  function Fetch(base: string, token: Option<string>, endpoint: string,
                 send: (string, seq<(string, string)>) -> Response): (r: Fetched)
    ensures var res := send(RequestUrl(base, endpoint), Headers(token));
      (r.Json? <==> res.ok)
      && (r.Json? ==> r.body == res.body)
      && (r.ApiError? ==> r.message == "Strapi API error: " + IntToString(res.status))
  {
    var res := send(RequestUrl(base, endpoint), Headers(token));
    if !res.ok then ApiError("Strapi API error: " + IntToString(res.status))
    else Json(res.body)
  }
}
