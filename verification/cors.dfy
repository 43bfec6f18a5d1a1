/** Origin policy of the edge gateway (src/index.js, lines 6-19): the
    `Origin` request header is matched exactly against a fixed three-entry
    whitelist, and the CORS response headers are derived from the match. */
module Cors {
  import opened Wrappers

  const AllowOriginHeader := "Access-Control-Allow-Origin"
  const AllowMethodsHeader := "Access-Control-Allow-Methods"
  const AllowHeadersHeader := "Access-Control-Allow-Headers"
  const MaxAgeHeader := "Access-Control-Max-Age"

  /** The only origins that receive `Access-Control-Allow-Origin`. */
  const Whitelist: set<string> := {
    "https://lylyhecker.github.io",
    "https://lylyhecker.github.io/iTravel-Guide",
    "http://itravelguide.ddns.net"
  }

  /** The `Origin` header as the handler reads it: a missing header is "". */
  function RequestOrigin(header: Option<string>): string {
    header.GetOr("")
  }

  /** The origin to echo back, if any. Matching is exact and case-sensitive;
      a missing header never matches, since "" is not whitelisted. */
  function AllowedOrigin(header: Option<string>): (r: Option<string>)
    ensures r.Some? <==> header.Some? && header.value in Whitelist
    ensures r.Some? ==> r == header
  {
    var origin := RequestOrigin(header);
    if origin in Whitelist then Some(origin) else None
  }

  /** The CORS headers attached to every response of the gateway. */
  function CorsHeaders(header: Option<string>): (h: map<string, string>)
    ensures AllowOriginHeader in h <==> header.Some? && header.value in Whitelist
    ensures AllowOriginHeader in h ==> h[AllowOriginHeader] == header.value
    ensures h.Keys - {AllowOriginHeader} == {AllowMethodsHeader, AllowHeadersHeader, MaxAgeHeader}
    ensures AllowMethodsHeader in h && AllowHeadersHeader in h && MaxAgeHeader in h
    ensures h[AllowMethodsHeader] == "POST, OPTIONS"
    ensures h[AllowHeadersHeader] == "Content-Type"
    ensures h[MaxAgeHeader] == "86400"
  {
    var fixed := map[
      AllowMethodsHeader := "POST, OPTIONS",
      AllowHeadersHeader := "Content-Type",
      MaxAgeHeader := "86400"
    ];
    match AllowedOrigin(header)
    case Some(origin) => fixed[AllowOriginHeader := origin]
    case None => fixed
  }
}
