/** `make_wsgi_app`'s `prometheus_app`: the exporter's HTTP front. It answers
    `/metrics` with what the Prometheus client library renders for the
    registry, and every response carries the same security headers. */
module WsgiApp {
  import opened Base

  type Bytes = seq<bv8>

  /** What the app hands to `start_response`, and the body chunks it
      returns. */
  datatype Response = Response(status: string, headers: seq<(string, string)>, chunks: seq<Bytes>)

  /** What `_bake_output(registry, ...)` returns: a status, headers and the
      rendered body. The rendering belongs to the client library. */
  datatype Baked = Baked(status: string, headers: seq<(string, string)>, output: Bytes)

  /** The headers every response starts with. */
  const SecurityHeaders: seq<(string, string)> := [
    ("Server", ""),
    ("Cache-Control", "no-cache, no-store, must-revalidate, max-age=0"),
    ("Pragma", "no-cache"),
    ("Expires", "0"),
    ("X-Content-Type-Options", "nosniff"),
    ("Cross-Origin-Resource-Policy", "same-origin"),
    ("Cross-Origin-Embedder-Policy", "require-corp"),
    ("Cross-Origin-Opener-Policy", "same-site")
  ]

  const PathKey: string := "PATH_INFO"

  /** `prometheus_app(environ, start_response)`, with `baked` standing for
      what `_bake_output` does for this request: it returns the rendering, or
      passes on what a collector's `collect` raised or the `os._exit` it
      reached. `environ["PATH_INFO"]` raises `KeyError` when the server did
      not set it. Only `/metrics` calls `_bake_output`. */
  method PrometheusApp(environ: map<string, string>, baked: Outcome<Baked>) returns (r: Outcome<Response>)
    ensures PathKey !in environ ==> r == Raise(KeyError(PathKey))
    ensures PathKey in environ && environ[PathKey] != "/metrics" ==> r.Ok?
    ensures PathKey in environ && environ[PathKey] == "/metrics" ==>
              && (r.Ok? <==> baked.Ok?)
              && (r.Raise? <==> baked.Raise?)
              && (baked.Raise? ==> r.error == baked.error)
              && (baked.Exit? ==> r.code == baked.code)
    ensures r.Ok? ==> SecurityHeaders <= r.value.headers && |r.value.chunks| == 1
    ensures r.Ok? && environ[PathKey] == "/" ==>
              r.value == Response("301 Moved Permanently", SecurityHeaders + [("Location", "/metrics")], [[]])
    ensures r.Ok? && environ[PathKey] == "/favicon.ico" ==>
              r.value == Response("200 OK", SecurityHeaders, [[]])
    ensures r.Ok? && environ[PathKey] == "/metrics" ==>
              r.value == Response(baked.value.status, SecurityHeaders + baked.value.headers, [baked.value.output])
    ensures r.Ok? && environ[PathKey] !in {"/", "/favicon.ico", "/metrics"} ==>
              r.value == Response("404 Not Found", SecurityHeaders, [[]])
  {
    var headers := SecurityHeaders;
    if PathKey !in environ {
      return Raise(KeyError(PathKey));
    }
    var path := environ[PathKey];
    var status: string;
    var output: Bytes;
    if path == "/" {
      status := "301 Moved Permanently";
      headers := headers + [("Location", "/metrics")];
      output := [];
    } else if path == "/favicon.ico" {
      status := "200 OK";
      output := [];
    } else if path == "/metrics" {
      var rendered :- baked;
      status, output := rendered.status, rendered.output;
      headers := headers + rendered.headers;
    } else {
      status := "404 Not Found";
      output := [];
    }
    r := Ok(Response(status, headers, [output]));
  }
}
