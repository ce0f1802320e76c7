/** The client record and the CGI runner declared in `include/CGIHandler.hpp`:
    request/response buffer bookkeeping and the environment handed to the
    script. */
module CgiClient {
  import opened Text

  /** `METHOD`. */
  datatype Verb = GET | POST | DELETE | PUT | HEAD | UNKNOWN

  /** `VERSION`. */
  datatype Version = PointNine | OnePointZero | OnePointOne | UnknownVersion

  /** `RequestData`, with the defaults its constructor sets. */
  datatype RequestData = RequestData(
    verb: Verb,
    version: Version,
    path: string,
    queryString: string,
    host: string,
    contentType: string,
    contentLength: nat,
    body: string,
    isKeepAlive: bool,
    isValid: bool)

  const DefaultRequest := RequestData(UNKNOWN, UnknownVersion, "", "", "", "", 0, "", false, false)

  /** `ResponseData`: a 16-bit status code, a content type and a buffer. */
  datatype ResponseData = ResponseData(statusCode: nat, contentType: string, buffer: seq<char>)

  const DefaultResponse := ResponseData(0, "", [])

  /** The end of a request head. */
  const HeadEnd: string := "\r\n\r\n"

  /** `Client`: a connection's buffers and the bytes moved so far. */
  class Client {
    var clientFd: nat
    var isComplete: bool
    var requestBuffer: string
    var responseBuffer: string
    var sizeSent: nat
    var sizeRecv: nat
    var response: ResponseData
    var request: RequestData

    /** The flag tells whether the buffer holds a complete head. The
        request-side methods keep this once it holds. */
    predicate Consistent()
      reads this
    {
      isComplete <==> Contains(requestBuffer, HeadEnd)
    }

    /** `Client(newFD)`: the descriptor stored, counters zero, buffers empty,
        not complete. */
    constructor(newFd: nat)
      ensures clientFd == newFd && !isComplete
      ensures requestBuffer == [] && responseBuffer == []
      ensures sizeSent == 0 && sizeRecv == 0
      ensures response == DefaultResponse && request == DefaultRequest
      ensures Consistent()
    {
      clientFd := newFd;
      isComplete := false;
      requestBuffer := [];
      responseBuffer := [];
      sizeSent := 0;
      sizeRecv := 0;
      response := DefaultResponse;
      request := DefaultRequest;
      NotInEmpty(HeadEnd);
    }

    /** `addToRequestBuffer`: appends, and raises the flag when the buffer now
        holds a complete head; the flag is never lowered here. */
    method AddToRequestBuffer(str: string)
      modifies this
      ensures requestBuffer == old(requestBuffer) + str
      ensures isComplete == (old(isComplete) || Contains(requestBuffer, HeadEnd))
      ensures old(Consistent()) ==> Consistent()
      ensures clientFd == old(clientFd) && responseBuffer == old(responseBuffer)
      ensures sizeSent == old(sizeSent) && sizeRecv == old(sizeRecv)
      ensures response == old(response) && request == old(request)
    {
      requestBuffer := requestBuffer + str;
      if Find(requestBuffer, HeadEnd).Some? {
        isComplete := true;
      }
      if Contains(old(requestBuffer), HeadEnd) {
        ContainsAppend(old(requestBuffer), str, HeadEnd);
      }
    }

    /** `clearAndUpdateRequestBuffer`: the buffer becomes `str`, and the flag
        tells exactly whether `str` holds a complete head. */
    method ClearAndUpdateRequestBuffer(str: string)
      modifies this
      ensures requestBuffer == str
      ensures isComplete <==> Contains(str, HeadEnd)
      ensures Consistent()
      ensures clientFd == old(clientFd) && responseBuffer == old(responseBuffer)
      ensures sizeSent == old(sizeSent) && sizeRecv == old(sizeRecv)
      ensures response == old(response) && request == old(request)
    {
      requestBuffer := [];
      isComplete := false;
      NotInEmpty(HeadEnd);
      AddToRequestBuffer(str);
    }

    /** `addToResponseBuffer`. */
    method AddToResponseBuffer(str: string)
      modifies this
      ensures responseBuffer == old(responseBuffer) + str
      ensures clientFd == old(clientFd) && isComplete == old(isComplete)
      ensures requestBuffer == old(requestBuffer)
      ensures sizeSent == old(sizeSent) && sizeRecv == old(sizeRecv)
      ensures response == old(response) && request == old(request)
    {
      responseBuffer := responseBuffer + str;
    }

    /** `clearAndUpdateResponseBuffer`: the status code reset to 0, the buffer
        replaced by `str`; nothing on the request side changes. */
    method ClearAndUpdateResponseBuffer(str: string)
      modifies this
      ensures response == old(response).(statusCode := 0)
      ensures responseBuffer == str
      ensures clientFd == old(clientFd) && isComplete == old(isComplete)
      ensures requestBuffer == old(requestBuffer) && request == old(request)
      ensures sizeSent == old(sizeSent) && sizeRecv == old(sizeRecv)
    {
      response := response.(statusCode := 0);
      responseBuffer := [];
      AddToResponseBuffer(str);
    }

    /** `isResponseCompleted`: every byte of the buffer has been sent. */
    method IsResponseCompleted() returns (done: bool)
      ensures done <==> sizeSent >= |responseBuffer|
    {
      if sizeSent >= |responseBuffer| {
        return true;
      }
      return false;
    }
  }

  /** The empty text holds no non-empty pattern. */
  lemma NotInEmpty(pat: string)
    requires pat != []
    ensures !Contains([], pat)
  {
  }

  /** An occurrence stays one when text is appended. */
  lemma ContainsAppend(a: string, b: string, pat: string)
    requires Contains(a, pat)
    ensures Contains(a + b, pat)
  {
    var i :| 0 <= i <= |a| && OccursAt(a, pat, i);
    OccursInPrefix(a, b, pat, i);
  }

  /** Feeding a request in two chunks or in one leaves the same flag. */
  lemma ChunksAgree(s1: string, s2: string)
    ensures Contains(s1, HeadEnd) || Contains(s1 + s2, HeadEnd) <==> Contains(s1 + s2, HeadEnd)
  {
    if Contains(s1, HeadEnd) {
      ContainsAppend(s1, s2, HeadEnd);
    }
  }

  // ---------------------------------------------------------------- execute

  /** The six variable names, in the order `execute` pushes them. */
  const ExecNames: seq<string> :=
    ["REQUEST_METHOD", "CONTENT_LENGTH", "QUERY_STRING", "CONTENT_TYPE", "PATH_INFO", "SCRIPT_FILENAME"]

  /** The values of the six variables: `POST` only for a POST request,
      `GET` for every other method. */
  function ExecValues(scriptPath: string, request: RequestData): (vs: seq<string>)
    ensures |vs| == 6
  {
    [if request.verb == POST then "POST" else "GET",
     NatToString(request.contentLength),
     request.queryString,
     request.contentType,
     request.path,
     scriptPath]
  }

  /** The child's environment vector, built by successive `push_back`s,
      and the `envp` array made from it: the entries, then a null. */
  method ExecEnv(scriptPath: string, request: RequestData) returns (env: seq<string>, envp: seq<Option<string>>)
    ensures |env| == 6
    ensures forall i :: 0 <= i < 6 ==> env[i] == ExecNames[i] + "=" + ExecValues(scriptPath, request)[i]
    ensures |envp| == 7 && envp[6] == None
    ensures forall i :: 0 <= i < 6 ==> envp[i] == Some(env[i])
  {
    env := [];
    env := env + ["REQUEST_METHOD=" + (if request.verb == POST then "POST" else "GET")];
    env := env + ["CONTENT_LENGTH=" + NatToString(request.contentLength)];
    env := env + ["QUERY_STRING=" + request.queryString];
    env := env + ["CONTENT_TYPE=" + request.contentType];
    env := env + ["PATH_INFO=" + request.path];
    env := env + ["SCRIPT_FILENAME=" + scriptPath];
    envp := ToEnvp(env);
  }

  /** The `envp` array made from a vector of entries: each entry's C string,
      then a null. */
  method ToEnvp(env: seq<string>) returns (envp: seq<Option<string>>)
    ensures |envp| == |env| + 1 && envp[|env|] == None
    ensures forall i :: 0 <= i < |env| ==> envp[i] == Some(env[i])
  {
    envp := [];
    for i := 0 to |env|
      invariant |envp| == i
      invariant forall j :: 0 <= j < i ==> envp[j] == Some(env[j])
    {
      envp := envp + [Some(env[i])];
    }
    envp := envp + [None];
  }

  /** Each entry splits at its first `'='` into its name and its value, so
      the script reads back exactly the request's fields; the method reads
      back as `POST` only for a POST request and the length as the decimal
      `content_length`. */
  lemma ExecEnvReadBack(scriptPath: string, request: RequestData, env: seq<string>)
    requires |env| == 6
    requires forall i :: 0 <= i < 6 ==> env[i] == ExecNames[i] + "=" + ExecValues(scriptPath, request)[i]
    ensures forall i :: 0 <= i < 6 ==>
      FindChar(env[i], '=') == Some(|ExecNames[i]|) &&
      env[i][..|ExecNames[i]|] == ExecNames[i] &&
      env[i][|ExecNames[i]| + 1..] == ExecValues(scriptPath, request)[i]
    ensures env[0] == "REQUEST_METHOD=POST" <==> request.verb == POST
  {
    forall i | 0 <= i < 6
      ensures FindChar(env[i], '=') == Some(|ExecNames[i]|) &&
        env[i][..|ExecNames[i]|] == ExecNames[i] &&
        env[i][|ExecNames[i]| + 1..] == ExecValues(scriptPath, request)[i]
    {
      NameHasNoEquals(i);
      EntrySplit(ExecNames[i], ExecValues(scriptPath, request)[i]);
    }
    assert env[0][15..] == ExecValues(scriptPath, request)[0];
    if env[0] == "REQUEST_METHOD=POST" {
      assert env[0][15..] == "POST";
    }
  }

  lemma NameHasNoEquals(i: nat)
    requires i < 6
    ensures NoChar(ExecNames[i], '=')
  {
  }

  /** `name=value` with no `'='` in the name splits back at its first `'='`. */
  lemma EntrySplit(name: string, value: string)
    requires NoChar(name, '=')
    ensures var l := name + "=" + value;
      FindChar(l, '=') == Some(|name|) && l[..|name|] == name && l[|name| + 1..] == value
  {
    var l := name + "=" + value;
    assert l == name + ['='] + value;
    FindCharAfter(name, '=', value);
    assert l[..|name|] == name;
    assert l[|name| + 1..] == value;
  }

  /** What the parent's side of `execute` produces. */
  datatype Execution = Execution(result: string, writtenBody: string)

  /** `execute` in the parent. Whether `pipe` and `fork` succeed and what the
      child prints are parameters. A failed `pipe` or `fork` gives its error
      text; otherwise the request body is written to the child only for a
      POST request with a non-empty body, and the result is the child's
      output. */
  method Execute(request: RequestData, pipesOk: bool, forkOk: bool, childOutput: string)
    returns (run: Execution)
    ensures !pipesOk ==> run == Execution("Error: Pipe failed", [])
    ensures pipesOk && !forkOk ==> run == Execution("Error: Fork failed", [])
    ensures pipesOk && forkOk ==> run.result == childOutput
    ensures pipesOk && forkOk ==>
      (run.writtenBody != [] <==> request.verb == POST && request.body != []) &&
      (run.writtenBody != [] ==> run.writtenBody == request.body)
  {
    if !pipesOk {
      return Execution("Error: Pipe failed", []);
    }
    if !forkOk {
      return Execution("Error: Fork failed", []);
    }
    var written := [];
    if request.verb == POST && request.body != [] {
      written := request.body;
    }
    return Execution(childOutput, written);
  }
}
