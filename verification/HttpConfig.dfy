/** Request methods, protocol versions and status details, with their text forms. */
module HttpConfig {
  datatype Method = GET | HEAD | POST | PUT | DELETE | CONNECT | OPTIONS | TRACE | PATCH | UNKNOWN_REQUEST_METHOD

  datatype Version = HTTP_1_0 | HTTP_1_1 | UNKNOWN_HTTP_VERSION

  function MethodText(m: Method): string {
    match m
    case GET => "GET"
    case HEAD => "HEAD"
    case POST => "POST"
    case PUT => "PUT"
    case DELETE => "DELETE"
    case CONNECT => "CONNECT"
    case OPTIONS => "OPTIONS"
    case TRACE => "TRACE"
    case PATCH => "PATCH"
    case UNKNOWN_REQUEST_METHOD => "UNKNOWN_REQUEST_METHOD"
  }

  const METHOD_TABLE: map<string, Method> := map[
    "GET" := GET, "HEAD" := HEAD, "POST" := POST, "PUT" := PUT, "DELETE" := DELETE,
    "CONNECT" := CONNECT, "OPTIONS" := OPTIONS, "TRACE" := TRACE, "PATCH" := PATCH]

  function ToMethod(s: string): Method {
    if s in METHOD_TABLE then METHOD_TABLE[s] else UNKNOWN_REQUEST_METHOD
  }

  function VersionText(v: Version): string {
    match v
    case HTTP_1_0 => "HTTP/1.0"
    case HTTP_1_1 => "HTTP/1.1"
    case UNKNOWN_HTTP_VERSION => "UNKNOWN_HTTP_VERSION"
  }

  const VERSION_TABLE: map<string, Version> := map["HTTP/1.0" := HTTP_1_0, "HTTP/1.1" := HTTP_1_1]

  function ToVersion(s: string): Version {
    if s in VERSION_TABLE then VERSION_TABLE[s] else UNKNOWN_HTTP_VERSION
  }

  const STATUS_DETAIL: map<nat, string> := map[
    200 := "OK", 206 := "Partial Content", 400 := "Bad Request", 403 := "Forbidden", 404 := "Not Found",
    500 := "Internal Server Error", 501 := "Not Implemented", 502 := "Bad Gateway",
    505 := "HTTP Version not supported"]

  function StatusDetail(code: nat): string {
    if code in STATUS_DETAIL then STATUS_DETAIL[code] else ""
  }

  /** Reading back the printed name of a method or version gives the method or version. */
  lemma NamesRoundTrip(m: Method, v: Version)
    ensures ToMethod(MethodText(m)) == m
    ensures ToVersion(VersionText(v)) == v
  {
    match m
    case GET => assert "GET" in METHOD_TABLE;
    case HEAD => assert "HEAD" in METHOD_TABLE;
    case POST => assert "POST" in METHOD_TABLE;
    case PUT => assert "PUT" in METHOD_TABLE;
    case DELETE => assert "DELETE" in METHOD_TABLE;
    case CONNECT => assert "CONNECT" in METHOD_TABLE;
    case OPTIONS => assert "OPTIONS" in METHOD_TABLE;
    case TRACE => assert "TRACE" in METHOD_TABLE;
    case PATCH => assert "PATCH" in METHOD_TABLE;
    case UNKNOWN_REQUEST_METHOD =>
      assert |MethodText(m)| == 22;
      assert forall k :: k in METHOD_TABLE ==> |k| < 22;
  }

  /** Exactly which texts name which method; every other text is unknown. */
  lemma {:induction false} MethodsExactly(s: string)
    ensures ToMethod(s) == GET <==> s == "GET"
    ensures ToMethod(s) == HEAD <==> s == "HEAD"
    ensures ToMethod(s) == POST <==> s == "POST"
    ensures ToMethod(s) == PUT <==> s == "PUT"
    ensures ToMethod(s) == DELETE <==> s == "DELETE"
    ensures ToMethod(s) == CONNECT <==> s == "CONNECT"
    ensures ToMethod(s) == OPTIONS <==> s == "OPTIONS"
    ensures ToMethod(s) == TRACE <==> s == "TRACE"
    ensures ToMethod(s) == PATCH <==> s == "PATCH"
    ensures ToMethod(s) == UNKNOWN_REQUEST_METHOD <==>
            s !in {"GET", "HEAD", "POST", "PUT", "DELETE", "CONNECT", "OPTIONS", "TRACE", "PATCH"}
  {
    if s in METHOD_TABLE {
      NamesRoundTrip(METHOD_TABLE[s], HTTP_1_0);
    }
    NamesRoundTrip(GET, HTTP_1_0);
    NamesRoundTrip(HEAD, HTTP_1_0);
    NamesRoundTrip(POST, HTTP_1_0);
    NamesRoundTrip(PUT, HTTP_1_0);
    NamesRoundTrip(DELETE, HTTP_1_0);
    NamesRoundTrip(CONNECT, HTTP_1_0);
    NamesRoundTrip(OPTIONS, HTTP_1_0);
    NamesRoundTrip(TRACE, HTTP_1_0);
    NamesRoundTrip(PATCH, HTTP_1_0);
  }

  /** Exactly which texts name which version. */
  lemma {:induction false} VersionsExactly(s: string)
    ensures ToVersion(s) == HTTP_1_0 <==> s == "HTTP/1.0"
    ensures ToVersion(s) == HTTP_1_1 <==> s == "HTTP/1.1"
    ensures ToVersion(s) == UNKNOWN_HTTP_VERSION <==> s != "HTTP/1.0" && s != "HTTP/1.1"
  {
    assert "HTTP/1.0" in VERSION_TABLE && "HTTP/1.1" in VERSION_TABLE;
  }

  /** The detail of each status code; any other code has none. */
  lemma {:induction false} DetailsExactly(code: nat)
    ensures StatusDetail(code) == match code
                                  case 200 => "OK"
                                  case 206 => "Partial Content"
                                  case 400 => "Bad Request"
                                  case 403 => "Forbidden"
                                  case 404 => "Not Found"
                                  case 500 => "Internal Server Error"
                                  case 501 => "Not Implemented"
                                  case 502 => "Bad Gateway"
                                  case 505 => "HTTP Version not supported"
                                  case _ => ""
  {
  }
}
