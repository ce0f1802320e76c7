/** The second CGI handler, `srcs/CGIHandler.cpp`: a smaller environment
    and `execute`'s fallback results. Its `mapToEnvp` is the same loop as
    the first handler's and is modelled by `CgiHandler.MapToEnvp`. */
module CgiHandlerAlt {
  import opened Text
  import opened HttpTypes
  import CgiHandler
  import CgiFrame

  /** The names this `getEnv` always sets. */
  const BaseNames: set<string> := {"REQUEST_METHOD", "QUERY_STRING", "CONTENT_LENGTH", "PATH_INFO", "SCRIPT_FILENAME"}

  /** `getEnv`: five entries, and `CONTENT_TYPE` when the request has a
      `content-type` value. The query defaults to a single space. */
  method GetEnv(scriptPath: string, req: RequestView) returns (env: map<string, string>)
    ensures env.Keys == BaseNames + (if CgiHandler.ContentTypeOf(req).Some? then {"CONTENT_TYPE"} else {})
    ensures env["REQUEST_METHOD"] in {"POST", "GET", "UNKNOWN"}
    ensures env["REQUEST_METHOD"] == "POST" <==> req.verb == Post
    ensures env["REQUEST_METHOD"] == "GET" <==> req.verb == Get
    ensures env["QUERY_STRING"] == if req.query.Some? then req.query.value else " "
    ensures AllDigits(env["CONTENT_LENGTH"]) && DecimalValue(env["CONTENT_LENGTH"]) == |req.body|
    ensures env["PATH_INFO"] == req.target && env["SCRIPT_FILENAME"] == scriptPath
    ensures CgiHandler.ContentTypeOf(req).Some? ==> env["CONTENT_TYPE"] == CgiHandler.ContentTypeOf(req).value
  {
    env := map[];
    env := env["REQUEST_METHOD" := if req.verb == Post then "POST" else if req.verb == Get then "GET" else "UNKNOWN"];
    env := env["QUERY_STRING" := if req.query.Some? then req.query.value else " "];
    env := env["CONTENT_LENGTH" := NatToString(|req.body|)];
    env := env["PATH_INFO" := req.target];
    env := env["SCRIPT_FILENAME" := scriptPath];
    var ct := HeaderValues(req.headers, "content-type");
    if ct.Some? && ct.value != [] {
      env := env["CONTENT_TYPE" := ct.value[0]];
    }
  }

  /** Against the first handler: every variable this one sets has the same
      value there, except `QUERY_STRING`. */
  lemma AgreesWithCgiHandler(scriptPath: string, req: RequestView, env: map<string, string>)
    requires env.Keys == BaseNames + (if CgiHandler.ContentTypeOf(req).Some? then {"CONTENT_TYPE"} else {})
    requires env["REQUEST_METHOD"] == CgiHandler.MethodVar(req.verb)
    requires env["CONTENT_LENGTH"] == NatToString(|req.body|)
    requires env["PATH_INFO"] == req.target && env["SCRIPT_FILENAME"] == scriptPath
    requires CgiHandler.ContentTypeOf(req).Some? ==> env["CONTENT_TYPE"] == CgiHandler.ContentTypeOf(req).value
    ensures var other := CgiHandler.FixedEnv(scriptPath, req);
      forall k :: k in env && k != "QUERY_STRING" ==> k in other && env[k] == other[k]
  {
    var base := CgiHandler.RequestEnv(scriptPath, req);
    var other := CgiHandler.FixedEnv(scriptPath, req);
    CgiHandler.FixedEnvEntries(scriptPath, req);
    CgiHandler.FixedEnvKeys(scriptPath, req);
    CgiHandler.FixedEnvKeepsRequest(scriptPath, req);
    forall k | k in env && k != "QUERY_STRING" ensures k in other && env[k] == other[k] {
      if k != "CONTENT_TYPE" {
        assert k in BaseNames;
        assert k in base && env[k] == base[k];
      }
    }
  }

  /** For a request without a query the two handlers differ: `" "` here,
      `""` in the first handler. */
  lemma QueryDefaultsDiffer(scriptPath: string, req: RequestView, env: map<string, string>)
    requires req.query.None?
    requires "QUERY_STRING" in env && env["QUERY_STRING"] == " "
    ensures env["QUERY_STRING"] != CgiHandler.FixedEnv(scriptPath, req)["QUERY_STRING"]
  {
    CgiHandler.FixedEnvKeys(scriptPath, req);
    CgiHandler.FixedEnvKeepsRequest(scriptPath, req);
    assert CgiHandler.RequestEnv(scriptPath, req)["QUERY_STRING"] == "";
  }

  /** The text both failure paths of `execute` return. */
  const FailureOutput: string := "Status: 500 Internal Server Error\r\n\r\n"

  /** `execute`: a failed `pipe` or `fork` gives the 500 fallback; otherwise
      the script path comes back unchanged, the child and parent branches
      being empty. */
  method Execute(scriptPath: string, pipesOk: bool, forkOk: bool) returns (result: string)
    ensures !pipesOk || !forkOk ==> result == FailureOutput
    ensures pipesOk && forkOk ==> result == scriptPath
  {
    if !pipesOk {
      return FailureOutput;
    }
    if !forkOk {
      return FailureOutput;
    }
    return scriptPath;
  }

  /** Read back by the first handler's output parser, the fallback loses
      its status: the only header line is the last one, which is never
      examined. */
  lemma FailureReadsAsOk()
    ensures CgiHandler.Parse(FailureOutput).status == CgiHandler.DefaultStatus
  {
    CgiHandler.FallbackStatusLost();
    assert FailureOutput == "Status: 500 Internal Server Error" + CgiFrame.Blank;
  }
}
