/** Types shared by the request parser, the response builder and the CGI layer. */
module HttpTypes {
  import opened Text

  /** The request methods the server knows. */
  datatype Method = Get | Post | Delete | Unknown

  /** Life-cycle states of a client request. */
  datatype RequestStatus =
    | WaitingData | CompleteReq | ReadyForResponse
    | IdleTimeout | RecvTimeout | SendTimeout
    | Invalid | Error

  /** One server block of the configuration file, as the server uses it. */
  datatype Config = Config(
    host: string,
    ports: seq<int>,
    routes: map<string, string>,
    errorPages: map<string, string>)

  /** What the CGI layer reads from a parsed request through its accessors.
      `headers` lists the header table in the order the container yields it;
      the names are lower-cased and pairwise distinct. */
  datatype RequestView = RequestView(
    verb: Method,
    target: string,
    query: Option<string>,
    httpVersion: string,
    headers: seq<(string, seq<string>)>,
    body: string)

  predicate DistinctNames(headers: seq<(string, seq<string>)>) {
    forall i, j :: 0 <= i < j < |headers| ==> headers[i].0 != headers[j].0
  }

  /** The values stored under `name`, if the table has that name. */
  function HeaderValues(headers: seq<(string, seq<string>)>, name: string): (r: Option<seq<string>>)
    ensures r.None? <==> forall i :: 0 <= i < |headers| ==> headers[i].0 != name
    ensures r.Some? ==> exists i :: 0 <= i < |headers| && headers[i] == (name, r.value)
    decreases |headers|
  {
    if headers == [] then None
    else if headers[0].0 == name then Some(headers[0].1)
    else
      var r := HeaderValues(headers[1..], name);
      assert forall i :: 1 <= i < |headers| ==> headers[i] == headers[1..][i - 1];
      r
  }

  /** The first `host` value, or the empty string when there is none. */
  function HostOf(req: RequestView): string {
    match HeaderValues(req.headers, "host")
    case Some(vs) => if vs != [] then vs[0] else ""
    case None => ""
  }
}
