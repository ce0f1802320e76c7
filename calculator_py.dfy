/** `www/site/cgi-bin/calculator.py`: adds the query parameters `a` and `b`
    and answers in the CGI layout of `CgiFrame`.

    `urllib.parse.parse_qs` is not modelled: it is a parameter from the query
    text to a map from names to lists of values. Python's `int` of a text is
    a parameter too (`None` standing for `ValueError`). The process
    environment is a map. */
module CalculatorPy {
  import opened Text
  import opened CgiFrame
  import CgiHandler

  type Params = map<string, seq<string>>

  /** The outcome of one `int(...)` call. */
  datatype IntResult = Value(n: int) | ValueError | TypeError

  /** `int(params.get(key, 0))`: the default is the integer 0, but a present
      parameter is the list of its values, which `int` refuses with a
      `TypeError`. */
  function IntOfGet(params: Params, key: string): IntResult {
    if key in params then TypeError else Value(0)
  }

  /** The response the script writes for a status and a body: the length is
      `len(body)`, the number of characters. */
  function Respond(status: string, body: string): string {
    Framed(status, "text/plain", NatToString(|body|), body)
  }

  /** What `main` writes to standard output, `None` when it stops on an
      uncaught exception before writing anything. Only `ValueError` is
      caught. */
  function Main(env: map<string, string>, parseQs: string -> Params): (out: Option<string>)
  {
    var params := parseQs(EnvGet(env, "QUERY_STRING", ""));
    var a := IntOfGet(params, "a");
    var b := IntOfGet(params, "b");
    if a.TypeError? || (a.Value? && b.TypeError?) then None
    else if a.ValueError? || b.ValueError? then Some(Respond("400 Bad Request", "Error: Invalid numbers"))
    else Some(Respond("200 OK", IntToString(a.n + b.n)))
  }

  /** No parameters: both default to 0 and the answer is `"0"` with
      `200 OK`. */
  lemma NoParameters(env: map<string, string>, parseQs: string -> Params)
    requires var params := parseQs(EnvGet(env, "QUERY_STRING", ""));
      "a" !in params && "b" !in params
    ensures Main(env, parseQs) == Some(Framed("200 OK", "text/plain", "1", "0"))
  {
    assert IntToString(0) == "0";
    assert NatToString(|"0"|) == "1";
  }

  /** A present parameter stops the script: `int` of a list raises
      `TypeError`, which the `except ValueError` clause lets through, so
      nothing is written. */
  lemma PresentParameterCrashes(env: map<string, string>, parseQs: string -> Params)
    ensures var params := parseQs(EnvGet(env, "QUERY_STRING", ""));
      Main(env, parseQs).None? <==> "a" in params || "b" in params
  {
  }

  /** Every answer the script writes is read back by the server with its
      status and body; the length is the body length. */
  lemma ServerReadsAnswer(env: map<string, string>, parseQs: string -> Params)
    requires Main(env, parseQs).Some?
    ensures CgiHandler.Parse(Main(env, parseQs).value) == CgiHandler.CgiResponse("200 OK", "text/plain", "1", "0")
  {
    assert IntToString(0) == "0";
    NoParameters(env, parseQs);
    LiteralsPlain();
    CgiHandler.ParseFramed("200 OK", "text/plain", "1", "0");
    assert NatToString(|"0"|) == "1";
  }

  // ---------------------------------------------------------------- as evidently intended

  /** `int(params.get(key, ["0"])[0])`: the first value of a present
      parameter, 0 for an absent one. `parse_qs` never builds an empty list;
      one is read as absent. */
  function IntOfFirst(params: Params, key: string, pyInt: string -> Option<int>): IntResult {
    if key in params && params[key] != [] then
      match pyInt(params[key][0])
      case None => ValueError
      case Some(n) => Value(n)
    else Value(0)
  }

  /** Status and body of the script reading each parameter's first value. */
  function FirstValuesAnswer(params: Params, pyInt: string -> Option<int>): (string, string) {
    var a := IntOfFirst(params, "a", pyInt);
    var b := IntOfFirst(params, "b", pyInt);
    if a.ValueError? || b.ValueError? then ("400 Bad Request", "Error: Invalid numbers")
    else ("200 OK", IntToString(a.n + b.n))
  }

  /** The script reading each parameter's first value: it always answers,
      with the sum or with the `400` error. */
  function MainFirstValues(env: map<string, string>, parseQs: string -> Params, pyInt: string -> Option<int>): string {
    var answer := FirstValuesAnswer(parseQs(EnvGet(env, "QUERY_STRING", "")), pyInt);
    Respond(answer.0, answer.1)
  }

  /** The corrected script answers `200 OK` with the decimal sum exactly when
      both parameters are absent or numbers, `400 Bad Request` otherwise, and
      the server reads status and body back. */
  lemma FirstValuesReadBack(env: map<string, string>, parseQs: string -> Params, pyInt: string -> Option<int>)
    ensures var params := parseQs(EnvGet(env, "QUERY_STRING", ""));
      var a, b := IntOfFirst(params, "a", pyInt), IntOfFirst(params, "b", pyInt);
      var r := CgiHandler.Parse(MainFirstValues(env, parseQs, pyInt));
      (a.Value? && b.Value? ==> r.status == "200 OK" && r.body == IntToString(a.n + b.n)) &&
      (a.ValueError? || b.ValueError? ==> r.status == "400 Bad Request" && r.body == "Error: Invalid numbers")
  {
    var answer := FirstValuesAnswer(parseQs(EnvGet(env, "QUERY_STRING", "")), pyInt);
    LiteralsPlain();
    CgiHandler.FramedReadBack(answer.0, "text/plain", NatToString(|answer.1|), answer.1);
  }

  /** Character-count length: every body the script can write is ASCII, so
      `len(body)` is also its byte count. */
  lemma LengthIsByteCount(params: Params, pyInt: string -> Option<int>)
    ensures var body := FirstValuesAnswer(params, pyInt).1;
      IsAscii(body) && Utf8Length(body) == |body|
  {
    var a, b := IntOfFirst(params, "a", pyInt), IntOfFirst(params, "b", pyInt);
    var body := FirstValuesAnswer(params, pyInt).1;
    if a.ValueError? || b.ValueError? {
      assert IsAscii("Error: Invalid numbers");
    } else {
      IntToStringAscii(a.n + b.n);
    }
    Utf8LengthVsLength(body);
  }

  lemma IntToStringAscii(n: int)
    ensures IsAscii(IntToString(n))
  {
    var d := NatToString(if n >= 0 then n else -n);
    assert forall i :: 0 <= i < |d| ==> IsDigit(d[i]);
    if n < 0 {
      assert forall i :: 1 <= i < |"-" + d| ==> ("-" + d)[i] == d[i - 1];
    }
  }
}
