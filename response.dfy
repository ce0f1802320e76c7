/** The HTTP response builder, `srcs/Response.cpp`: the status the
    constructor decides on, the message `formResponse` assembles, the page
    lookup, the route rewriting and the send accounting. The file system,
    the page cache, the clock and path normalisation are parameters
    (`World`); the request is the view its accessors give plus its status. */
module Response {
  import opened Text
  import opened HttpTypes
  import Utils

  const CRLF: string := "\r\n"

  /** The line break that ends the header section followed by the empty line. */
  const Blank: string := "\r\n\r\n"

  // `ResponseCode` values the builder uses.
  const Unassigned: int := -1
  const OK: int := 200
  const NoContent: int := 204
  const BadRequest: int := 400
  const NotFound: int := 404
  const RequestTimeout: int := 408

  /** `_error`: why a request was refused before routing. */
  datatype ResponseError = NoError | BadTarget

  /** What the builder learns from outside the program. */
  datatype World = World(
    cwd: string,                      // std::filesystem::current_path()
    date: string,                     // getImfFixdate()
    existing: set<string>,            // paths std::filesystem::exists accepts
    directories: set<string>,         // paths std::filesystem::is_directory accepts
    cached: set<string>,              // keys Pages::isCached accepts
    normal: string -> string,         // path::lexically_normal
    page: string -> string)           // Pages::getPageContent

  // ---------------------------------------------------------------- paths

  function DropTrailingSlash(s: string): string {
    if s != [] && s[|s| - 1] == '/' then s[..|s| - 1] else s
  }

  function DropLeadingSlash(s: string): string {
    if s != [] && s[0] == '/' then s[1..] else s
  }

  /** The path `resourceExists` asks about: the search directory (the
      working directory when it is empty) without one trailing `'/'`, a
      `'/'`, and the uri without one leading `'/'`. */
  function ResourcePath(uri: string, searchDir: string, w: World): string {
    var dir := if searchDir == [] then w.cwd else searchDir;
    DropTrailingSlash(dir) + "/" + DropLeadingSlash(uri)
  }

  /** `resourceExists(uri, searchDir)`: never for an empty uri. */
  predicate ResourceExists(uri: string, searchDir: string, w: World) {
    uri != [] && ResourcePath(uri, searchDir, w) in w.existing
  }

  /** Lookups the source treats alike agree: an empty search directory is
      the working directory, one leading `'/'` of the uri and one trailing
      `'/'` of the directory make no difference. */
  lemma SameResource(uri: string, dir: string, w: World)
    ensures ResourceExists(uri, "", w) == ResourceExists(uri, w.cwd, w)
    ensures uri != [] && uri[0] != '/' ==> ResourceExists("/" + uri, dir, w) == ResourceExists(uri, dir, w)
    ensures dir != [] && dir[|dir| - 1] != '/' ==> ResourceExists(uri, dir + "/", w) == ResourceExists(uri, dir, w)
  {
    if dir != [] && dir[|dir| - 1] != '/' {
      assert (dir + "/")[..|dir + "/"| - 1] == dir;
    }
    if uri != [] && uri[0] != '/' {
      assert ("/" + uri)[1..] == uri;
    }
  }

  /** `getAbsPath(fileName)`: an absolute name unchanged, otherwise the name
      under the working directory. */
  function AbsPath(fileName: string, w: World): (r: string)
    ensures fileName != [] && fileName[0] == '/' ==> r == fileName
    ensures r != [] && |r| >= |fileName| && r[|r| - |fileName|..] == fileName
  {
    if fileName != [] && fileName[0] == '/' then fileName
    else DropTrailingSlash(w.cwd) + "/" + fileName
  }

  // ---------------------------------------------------------------- page lookup

  /** A status page key: three digits, the first a `'4'`. */
  predicate IsErrorKey(key: string) {
    |key| == 3 && AllDigits(key) && key[0] == '4'
  }

  /** `getResponsePageContent`: an error key is looked up among the error
      pages, any other key among the routes; a mapped file that exists is
      served, anything else falls back to the built-in `"default" + key`. */
  function PageContent(key: string, conf: Config, w: World): (r: string)
  {
    var pages := if IsErrorKey(key) then conf.errorPages else conf.routes;
    if key in pages && ResourceExists(pages[key], "", w) then w.page(AbsPath(pages[key], w))
    else w.page("default" + key)
  }

  /** The page served for a key comes from the table its kind selects, or
      from the default when that table has no existing file for it. */
  lemma PageLookup(key: string, conf: Config, w: World)
    ensures var pages := if IsErrorKey(key) then conf.errorPages else conf.routes;
      !(key in pages && ResourceExists(pages[key], "", w)) ==> PageContent(key, conf, w) == w.page("default" + key)
    ensures IsErrorKey(key) && key in conf.errorPages && ResourceExists(conf.errorPages[key], "", w) ==>
      PageContent(key, conf, w) == w.page(AbsPath(conf.errorPages[key], w))
    ensures !IsErrorKey(key) && key in conf.routes && ResourceExists(conf.routes[key], "", w) ==>
      PageContent(key, conf, w) == w.page(AbsPath(conf.routes[key], w))
    ensures forall routes :: IsErrorKey(key) ==> PageContent(key, conf.(routes := routes), w) == PageContent(key, conf, w)
    ensures forall errorPages :: !IsErrorKey(key) ==> PageContent(key, conf.(errorPages := errorPages), w) == PageContent(key, conf, w)
  {
  }

  /** The four keys `formResponse` asks for: the 4xx ones are error pages,
      the 2xx ones are routes. */
  lemma ResponseKeys()
    ensures IsErrorKey("400") && IsErrorKey("404")
    ensures !IsErrorKey("200") && !IsErrorKey("204")
  {
    assert AllDigits("400") by { assert forall i :: 0 <= i < 3 ==> IsDigit("400"[i]); }
    assert AllDigits("404") by { assert forall i :: 0 <= i < 3 ==> IsDigit("404"[i]); }
  }

  // ---------------------------------------------------------------- route

  /** The target without its leading `'/'`, unless it is the single `"/"`. */
  function Stripped(target: string): string {
    if |target| > 1 && target[0] == '/' then target[1..] else target
  }

  /** The index of the first key of `keys`, other than `"/"`, that occurs in `t`. */
  function FirstPartial(keys: seq<string>, t: string): (r: Option<nat>)
    ensures r.Some? ==> r.value < |keys| && keys[r.value] != "/" && Contains(t, keys[r.value])
    ensures forall j :: 0 <= j < |keys| && (r.None? || j < r.value) ==> keys[j] == "/" || !Contains(t, keys[j])
    decreases |keys|
  {
    if keys == [] then None
    else if keys[0] != "/" && Contains(t, keys[0]) then Some(0)
    else
      match FirstPartial(keys[1..], t)
      case None => None
      case Some(i) => Some(i + 1)
  }

  /** `target.replace(target.find(key), key.length(), val)`. */
  function ReplaceFirst(t: string, key: string, val: string): (r: string)
    requires Contains(t, key)
  {
    var p := Find(t, key).value;
    t[..p] + val + t[p + |key|..]
  }

  /** `route`: an exact route wins; then the first route key, in ascending
      order and other than `"/"`, found in the target has its first
      occurrence replaced; then the `"/"` route is put in front. */
  function Routed(target: string, routes: map<string, string>): (r: string)
  {
    var t := Stripped(target);
    if t in routes then routes[t]
    else
      var keys := SortedKeys(routes.Keys);
      match FirstPartial(keys, t)
      case Some(i) =>
        assert keys[i] in routes.Keys;
        ReplaceFirst(t, keys[i], routes[keys[i]])
      case None =>
        if "/" in routes then DropTrailingSlash(routes["/"]) + "/" + DropLeadingSlash(t)
        else t
  }

  /** A partial route: when no exact route exists, the least key (other than
      `"/"`) occurring in the target is the one replaced. */
  lemma RoutePartial(target: string, routes: map<string, string>, key: string)
    requires Stripped(target) !in routes
    requires key in routes && key != "/" && Contains(Stripped(target), key)
    requires forall k :: k in routes && k != "/" && Contains(Stripped(target), k) ==> LexLe(key, k)
    ensures Routed(target, routes) == ReplaceFirst(Stripped(target), key, routes[key])
  {
    var t := Stripped(target);
    var keys := SortedKeys(routes.Keys);
    assert key in keys;
    var j :| 0 <= j < |keys| && keys[j] == key;
    var f := FirstPartial(keys, t);
    assert f.Some?;
    var i := f.value;
    assert keys[i] in routes;
    if i != j {
      assert i < j;
      SortedKeysOrdered(routes.Keys);
      assert Precedes(keys, i, j);
      LexLeAntisymmetric(key, keys[i]);
    }
  }

  /** Without an exact or partial route, the `"/"` route (trailing `'/'`
      dropped) is put in front of the target with one `'/'` between; without
      that route either, only the leading `'/'` is gone. */
  lemma RouteFallback(target: string, routes: map<string, string>)
    requires Stripped(target) !in routes
    requires forall k :: k in routes && k != "/" ==> !Contains(Stripped(target), k)
    ensures "/" in routes ==>
      Routed(target, routes) == DropTrailingSlash(routes["/"]) + "/" + DropLeadingSlash(Stripped(target))
    ensures "/" !in routes ==> Routed(target, routes) == Stripped(target)
  {
    var keys := SortedKeys(routes.Keys);
    FirstPartialNone(keys, Stripped(target), routes.Keys);
  }

  /** One leading `'/'` makes no difference to the route taken. */
  lemma LeadingSlashIgnored(t: string, routes: map<string, string>)
    requires t != [] && t[0] != '/'
    ensures Routed("/" + t, routes) == Routed(t, routes)
  {
    assert ("/" + t)[1..] == t;
  }

  /** The first partial route is the key at `i` when no earlier key matches. */
  lemma FirstPartialAt(keys: seq<string>, t: string, i: nat)
    requires i < |keys| && keys[i] != "/" && Contains(t, keys[i])
    requires forall j :: 0 <= j < i ==> keys[j] == "/" || !Contains(t, keys[j])
    ensures FirstPartial(keys, t) == Some(i)
  {
    var f := FirstPartial(keys, t);
    assert f.Some? ==> f.value >= i;
  }

  /** No partial route when no key of the sequence, other than `"/"`, occurs. */
  lemma NoPartialLeft(keys: seq<string>, t: string)
    requires forall j :: 0 <= j < |keys| ==> keys[j] == "/" || !Contains(t, keys[j])
    ensures FirstPartial(keys, t) == None
  {
  }

  /** No partial route when no key of the set, other than `"/"`, occurs. */
  lemma FirstPartialNone(keys: seq<string>, t: string, s: set<string>)
    requires forall k :: k in s <==> k in keys
    requires forall k :: k in s && k != "/" ==> !Contains(t, k)
    ensures FirstPartial(keys, t) == None
  {
    var f := FirstPartial(keys, t);
    if f.Some? {
      assert false;
    }
  }

  /** `Routed` when the partial route at `i` applies. */
  lemma RoutedAt(target0: string, routes: map<string, string>, i: nat)
    requires Stripped(target0) !in routes
    requires FirstPartial(SortedKeys(routes.Keys), Stripped(target0)) == Some(i)
    ensures SortedKeys(routes.Keys)[i] in routes
    ensures Routed(target0, routes) ==
      ReplaceFirst(Stripped(target0), SortedKeys(routes.Keys)[i], routes[SortedKeys(routes.Keys)[i]])
  {
    assert SortedKeys(routes.Keys)[i] in routes.Keys;
  }

  /** `Routed` when no partial route applies. */
  lemma RoutedOtherwise(target0: string, routes: map<string, string>)
    requires Stripped(target0) !in routes
    requires FirstPartial(SortedKeys(routes.Keys), Stripped(target0)) == None
    ensures Routed(target0, routes) ==
      if "/" in routes then DropTrailingSlash(routes["/"]) + "/" + DropLeadingSlash(Stripped(target0))
      else Stripped(target0)
  {
  }

  /** The loop of `route` over the routes in `std::map` order. */
  method Route(target0: string, routes: map<string, string>) returns (target: string)
    ensures target == Routed(target0, routes)
  {
    target := target0;
    if |target| > 1 && target[0] == '/' {
      target := target[1..];
    }
    assert target == Stripped(target0);
    if target in routes {
      return routes[target];
    }
    var keys := SortedKeys(routes.Keys);
    var i := 0;
    while i < |keys|
      invariant 0 <= i <= |keys|
      invariant forall j :: 0 <= j < i ==> keys[j] == "/" || !Contains(target, keys[j])
    {
      var key := keys[i];
      if key != "/" && Find(target, key).Some? {
        FirstPartialAt(keys, target, i);
        RoutedAt(target0, routes, i);
        target := ReplaceFirst(target, key, routes[key]);
        return;
      }
      i := i + 1;
    }
    NoPartialLeft(keys, target);
    RoutedOtherwise(target0, routes);
    if "/" in routes {
      var route := DropTrailingSlash(routes["/"]);
      target := route + "/" + DropLeadingSlash(target);
    }
  }

  // ---------------------------------------------------------------- status decisions

  /** The status the request's own state forces before anything else. */
  function EarlyStatus(status: RequestStatus): (code: int)
    ensures code == Unassigned <==> status != Invalid && status != RecvTimeout
  {
    match status
    case Invalid => BadRequest
    case RecvTimeout => RequestTimeout
    case _ => Unassigned
  }

  /** A target that `uriFormatOk` refuses or `uriTargetAboveRoot` flags. */
  predicate TargetRejected(target: string) {
    target == [] || Utils.Doubled(target, '/') ||
    Utils.Ups(Utils.SplitUri(target)) > Utils.Downs(Utils.SplitUri(target))
  }

  /** The file a request target names: normalised, routed, and a directory
      replaced by its `index.html`. */
  function Resolve(target: string, conf: Config, w: World): (r: string)
  {
    var t := Routed(w.normal(target), conf.routes);
    if t in w.directories then DropTrailingSlash(t) + "/index.html" else t
  }

  /** The directory the resource is looked for in. */
  function SearchDir(t: string, w: World): string {
    if t != [] && t[0] == '/' then "/" else w.cwd
  }

  /** The status each method gets for a resolved target. */
  function MethodStatus(verb: Method, t: string, w: World): (code: int)
    ensures code in {OK, NoContent, BadRequest, NotFound}
    ensures verb == Post ==> code == OK
    ensures verb == Unknown ==> code == BadRequest
    ensures verb == Delete ==> (code == NoContent <==> ResourceExists(t, SearchDir(t, w), w))
    ensures verb == Delete ==> (code == NotFound <==> !ResourceExists(t, SearchDir(t, w), w))
    ensures verb == Get ==> (code == NotFound <==> AbsPath(t, w) !in w.cached && !ResourceExists(t, SearchDir(t, w), w))
    ensures verb == Get ==> (code == OK <==> AbsPath(t, w) in w.cached || ResourceExists(t, SearchDir(t, w), w))
  {
    match verb
    case Get => if AbsPath(t, w) !in w.cached && !ResourceExists(t, SearchDir(t, w), w) then NotFound else OK
    case Post => OK
    case Delete => if !ResourceExists(t, SearchDir(t, w), w) then NotFound else NoContent
    case Unknown => BadRequest
  }

  /** The normalised target, routed, and a directory replaced by its
      `index.html`. */
  method ResolveTarget(target0: string, conf: Config, w: World) returns (target: string)
    ensures target == Resolve(target0, conf, w)
  {
    target := w.normal(target0);
    target := Route(target, conf.routes);
    if target in w.directories {
      if target != [] && target[|target| - 1] == '/' {
        target := target[..|target| - 1];
      }
      target := target + "/" + "index.html";
    }
  }

  /** The method switch of the constructor, for a resolved target. */
  method LocateStatus(verb: Method, target: string, w: World) returns (code: int)
    ensures code == MethodStatus(verb, target, w)
  {
    var searchDir := w.cwd;
    if target != [] && target[0] == '/' {
      searchDir := "/";
    }
    match verb {
      case Get =>
        if AbsPath(target, w) !in w.cached && !ResourceExists(target, searchDir, w) {
          code := NotFound;
        } else {
          code := OK;
        }
      case Post => code := OK;
      case Delete =>
        if !ResourceExists(target, searchDir, w) {
          code := NotFound;
        } else {
          code := NoContent;
        }
      case Unknown => code := BadRequest;
    }
  }

  /** The constructor's decisions before `formResponse`: the status code,
      the error and the resolved target (empty when the request is refused
      before routing). */
  method Decide(req: RequestView, status: RequestStatus, conf: Config, w: World)
    returns (code: int, error: ResponseError, target: string)
    ensures EarlyStatus(status) != Unassigned ==> code == EarlyStatus(status) && error == NoError && target == []
    ensures EarlyStatus(status) == Unassigned && TargetRejected(req.target) ==>
      code == BadRequest && error == BadTarget && target == []
    ensures EarlyStatus(status) == Unassigned && !TargetRejected(req.target) ==>
      target == Resolve(req.target, conf, w) && code == MethodStatus(req.verb, target, w) && error == NoError
    ensures code in {OK, NoContent, BadRequest, NotFound, RequestTimeout}
  {
    code, error, target := Unassigned, NoError, [];
    match status {
      case Invalid => code := BadRequest;
      case RecvTimeout => code := RequestTimeout;
      case _ =>
    }
    if code != Unassigned {
      return;
    }
    var formatOk := Utils.UriFormatOk(req.target);
    var above := false;
    if formatOk {
      above := Utils.UriTargetAboveRoot(req.target);
    }
    if !formatOk || above {
      error := BadTarget;
      code := BadRequest;
      return;
    }
    target := ResolveTarget(req.target, conf, w);
    code := LocateStatus(req.verb, target, w);
  }

  // ---------------------------------------------------------------- the message

  /** What follows the version in the start line; any code without a case
      of its own gets the `400` text. */
  function StatusText(code: int): string {
    if code == OK then " 200 OK"
    else if code == NoContent then " 204 No Content"
    else if code == NotFound then " 404 Not Found"
    else " 400 Bad Request"
  }

  function StartLine(version: string, code: int): string {
    version + StatusText(code)
  }

  /** The code a start line shows. */
  function ShownCode(code: int): int {
    if code in {OK, NoContent, NotFound} then code else BadRequest
  }

  /** The body for a status code: the target's own page for `200` when
      there is a target, otherwise the status page. */
  function BodyFor(code: int, target: string, conf: Config, w: World): string {
    if code == OK then
      if target != [] && target[0] == '/' then w.page(target)
      else if target != [] then w.page(AbsPath(target, w))
      else PageContent("200", conf, w)
    else if code == NoContent then PageContent("204", conf, w)
    else if code == NotFound then PageContent("404", conf, w)
    else PageContent("400", conf, w)
  }

  /** The header section `formResponse` builds, `Content-Length` last. */
  function HeaderSection(host: string, date: string, length: nat): string {
    "Server: " + host + CRLF + "Date: " + date + CRLF + "Content-Type: text/html" + CRLF +
    "Content-Length: " + NatToString(length) + CRLF
  }

  /** The whole message: start line, header section, empty line, body. */
  function Message(startLine: string, headerSection: string, body: string): string {
    startLine + CRLF + headerSection + CRLF + body
  }

  lemma CodeTexts()
    ensures NatToString(200) == "200" && NatToString(204) == "204"
    ensures NatToString(400) == "400" && NatToString(404) == "404"
  {
  }

  /** Every code renders as one of four start lines: the version, a space,
      the three digits of the code shown, a space and the reason. The code
      shown is the code itself for `200`, `204` and `404`, and `400` for
      everything else, the `408` of a receive timeout included. */
  lemma StartLineShowsCode(version: string, code: int)
    ensures var s := StartLine(version, code); var n := |version|;
      |s| > n + 4 && s[..n] == version && s[n] == ' ' && s[n + 4] == ' ' &&
      s[n + 1..n + 4] == NatToString(ShownCode(code))
    ensures ShownCode(code) == BadRequest <==> code !in {OK, NoContent, NotFound}
    ensures code == RequestTimeout ==> StartLine(version, code) == StartLine(version, BadRequest)
  {
    CodeTexts();
    var t := StatusText(code);
    var s := StartLine(version, code);
    var n := |version|;
    assert s[n..] == t;
    assert t[1..4] == NatToString(ShownCode(code));
    assert s[n + 1..n + 4] == t[1..4];
  }

  /** A body other than a found target's is the status page of the code
      the start line shows. */
  lemma BodyShowsCode(code: int, target: string, conf: Config, w: World)
    requires code != OK
    ensures BodyFor(code, target, conf, w) == PageContent(NatToString(ShownCode(code)), conf, w)
  {
    CodeTexts();
  }

  /** Lines each followed by a line break. */
  function Block(lines: seq<string>): string
    decreases |lines|
  {
    if lines == [] then [] else lines[0] + CRLF + Block(lines[1..])
  }

  /** Lines that are not empty and hold no `'\n'`. */
  predicate LinesOk(lines: seq<string>) {
    forall i :: 0 <= i < |lines| ==> lines[i] != [] && NoChar(lines[i], '\n')
  }

  lemma BlockCons(l: string, ls: seq<string>)
    ensures Block([l] + ls) == l + CRLF + Block(ls)
  {
    assert ([l] + ls)[1..] == ls;
  }

  lemma Block4(a: string, b: string, c: string, d: string)
    ensures Block([a, b, c, d]) == a + CRLF + b + CRLF + c + CRLF + d + CRLF
  {
    BlockCons(d, []);
    assert [d] + [] == [d];
    BlockCons(c, [d]);
    assert [c] + [d] == [c, d];
    BlockCons(b, [c, d]);
    assert [b] + [c, d] == [b, c, d];
    BlockCons(a, [b, c, d]);
    assert [a] + [b, c, d] == [a, b, c, d];
  }

  /** The header section is four lines, `Content-Length` last, and its
      value reads back as the length given. */
  lemma HeaderLines(host: string, date: string, length: nat)
    ensures var lines := ["Server: " + host, "Date: " + date, "Content-Type: text/html",
                          "Content-Length: " + NatToString(length)];
      HeaderSection(host, date, length) == Block(lines) &&
      lines[3][..16] == "Content-Length: " && AllDigits(lines[3][16..]) &&
      DecimalValue(lines[3][16..]) == length
  {
    Block4("Server: " + host, "Date: " + date, "Content-Type: text/html", "Content-Length: " + NatToString(length));
    var last := "Content-Length: " + NatToString(length);
    assert last[16..] == NatToString(length);
  }

  /** The characters an occurrence of `"\r\n\r\n"` pins down. */
  lemma BlankChars(s: string, j: int)
    ensures OccursAt(s, Blank, j) ==>
      s[j] == '\r' && s[j + 1] == '\n' && s[j + 2] == '\r' && s[j + 3] == '\n'
  {
    if OccursAt(s, Blank, j) {
      assert s[j..j + 4] == Blank;
      assert s[j..j + 4][1] == s[j + 1] && s[j..j + 4][3] == s[j + 3];
      assert s[j..j + 4][0] == s[j] && s[j..j + 4][2] == s[j + 2];
    }
  }

  /** No `"\r\n\r\n"` starts inside a line that holds no `'\n'`, nor at
      its line break when the next line does not start with an empty line. */
  lemma NoBlankBefore(l: string, t: string)
    requires NoChar(l, '\n')
    ensures forall j :: 0 <= j < |l| ==> !OccursAt(l + CRLF + t, Blank, j)
    ensures |t| >= 2 && t[1] != '\n' ==> forall j :: 0 <= j < |l| + 2 ==> !OccursAt(l + CRLF + t, Blank, j)
  {
    var s := l + CRLF + t;
    forall j | 0 <= j < |l| + 2 && (j < |l| || (|t| >= 2 && t[1] != '\n')) ensures !OccursAt(s, Blank, j) {
      BlankChars(s, j);
      if j + 1 < |l| {
        assert s[j + 1] == l[j + 1];
      } else if j + 1 == |l| {
        assert s[j + 1] == '\r';
      } else if j == |l| {
        assert s[j + 3] == t[1];
      } else {
        assert s[j] == '\n';
      }
    }
  }

  /** A non-empty line without `'\n'`, followed by a line break, has no
      `'\n'` second. */
  lemma SecondNotBreak(r: string, u: string)
    requires r != [] && NoChar(r, '\n')
    ensures |r + CRLF + u| >= 2 && (r + CRLF + u)[1] != '\n'
  {
    if |r| >= 2 {
      assert (r + CRLF + u)[1] == r[1];
    } else {
      assert (r + CRLF + u)[1] == '\r';
    }
  }

  lemma LinesOkTail(lines: seq<string>)
    requires lines != [] && LinesOk(lines)
    ensures LinesOk(lines[1..])
  {
    forall i | 0 <= i < |lines| - 1 ensures lines[1..][i] != [] && NoChar(lines[1..][i], '\n') {
      assert lines[1..][i] == lines[i + 1];
    }
  }

  /** In lines followed by one more line break and a body, the first
      `"\r\n\r\n"` is the one the extra line break completes. */
  lemma {:induction false} BlankAfterBlock(lines: seq<string>, body: string)
    requires lines != [] && LinesOk(lines)
    ensures |Block(lines)| >= 2
    ensures Find(Block(lines) + CRLF + body, Blank) == Some(|Block(lines)| - 2)
    decreases |lines|
  {
    var l := lines[0];
    var rest := lines[1..];
    var s := Block(lines) + CRLF + body;
    var tail := Block(rest) + CRLF + body;
    BlockSplit(lines, body);
    LinesOkTail(lines);
    if rest == [] {
      BlankBase(s, l, body);
    } else {
      BlankAfterBlock(rest, body);
      TailSecond(rest, body);
      BlankStep(s, l, tail, |Block(rest)| - 2);
    }
  }

  /** The first line split off the block, followed by the rest. */
  lemma BlockSplit(lines: seq<string>, body: string)
    requires lines != []
    ensures Block(lines) + CRLF + body == lines[0] + CRLF + (Block(lines[1..]) + CRLF + body)
    ensures |Block(lines)| == |lines[0]| + 2 + |Block(lines[1..])|
    ensures lines[1..] == [] ==> Block(lines[1..]) + CRLF + body == CRLF + body
  {
    Regroup(lines[0], Block(lines[1..]), body);
  }

  /** The second character after a non-empty block of good lines is not `'\n'`. */
  lemma TailSecond(lines: seq<string>, body: string)
    requires lines != [] && LinesOk(lines)
    ensures |Block(lines) + CRLF + body| >= 2 && (Block(lines) + CRLF + body)[1] != '\n'
  {
    BlockSplit(lines, body);
    SecondNotBreak(lines[0], Block(lines[1..]) + CRLF + body);
  }

  /** A line followed by the empty line: the first `"\r\n\r\n"` ends the line. */
  lemma BlankBase(s: string, l: string, body: string)
    requires NoChar(l, '\n') && s == l + CRLF + (CRLF + body)
    ensures Find(s, Blank) == Some(|l|)
  {
    NoBlankBefore(l, CRLF + body);
    assert s[|l|..|l| + 4] == Blank;
    FindFromIs(s, Blank, 0, |l|);
  }

  /** A line in front moves the first `"\r\n\r\n"` of what follows by its
      length and line break. */
  lemma BlankStep(s: string, l: string, t: string, v: nat)
    requires NoChar(l, '\n') && |t| >= 2 && t[1] != '\n' && Find(t, Blank) == Some(v)
    requires s == l + CRLF + t
    ensures Find(s, Blank) == Some(|l| + 2 + v)
  {
    NoBlankBefore(l, t);
    assert s[|l| + 2..] == t;
    FindAfterPrefix(s, |l| + 2, Blank);
  }

  /** Moving the brackets of a line followed by more text. */
  lemma Regroup(a: string, x: string, body: string)
    ensures a + CRLF + x + CRLF + body == a + CRLF + (x + CRLF + body)
  {
  }

  /** The start line and the four header lines of a message. */
  function MessageLines(startLine: string, host: string, date: string, length: nat): seq<string> {
    [startLine, "Server: " + host, "Date: " + date, "Content-Type: text/html",
     "Content-Length: " + NatToString(length)]
  }

  /** The start line and the header section are the block of the message lines. */
  lemma MessageAsBlock(startLine: string, host: string, date: string, length: nat)
    ensures Block(MessageLines(startLine, host, date, length)) ==
      startLine + CRLF + HeaderSection(host, date, length)
  {
    var lines := MessageLines(startLine, host, date, length);
    HeaderLines(host, date, length);
    BlockCons(startLine, lines[1..]);
    assert [startLine] + lines[1..] == lines;
  }

  lemma MessageLinesOk(startLine: string, host: string, date: string, length: nat)
    requires startLine != [] && NoChar(startLine, '\n') && NoChar(host, '\n') && NoChar(date, '\n')
    ensures LinesOk(MessageLines(startLine, host, date, length))
  {
    NoCharConcat("Server: ", host, '\n');
    NoCharConcat("Date: ", date, '\n');
    NoCharConcat("Content-Length: ", NatToString(length), '\n');
  }

  /** Text, a line break and a body: the text and the body are read back. */
  lemma SplitAtBreak(b: string, body: string)
    ensures (b + CRLF + body)[..|b|] == b && (b + CRLF + body)[|b| + 2..] == body
  {
  }

  /** A client reading the message finds the header section ending at the
      first empty line and the body, unchanged, after it: the host, the date
      and the start line carry no `'\n'`. */
  lemma MessageReadsBack(startLine: string, host: string, date: string, body: string)
    requires startLine != [] && NoChar(startLine, '\n') && NoChar(host, '\n') && NoChar(date, '\n')
    ensures var m := Message(startLine, HeaderSection(host, date, |body|), body);
      Find(m, Blank).Some? &&
      m[..Find(m, Blank).value + 2] == startLine + CRLF + HeaderSection(host, date, |body|) &&
      m[Find(m, Blank).value + 4..] == body
  {
    var lines := MessageLines(startLine, host, date, |body|);
    var b := startLine + CRLF + HeaderSection(host, date, |body|);
    MessageLinesOk(startLine, host, date, |body|);
    MessageAsBlock(startLine, host, date, |body|);
    BlankAfterBlock(lines, body);
    SplitAtBreak(b, body);
  }

  /** The `switch` of `formResponse` on the status code: the start line and
      the page for each code, the `400` case for any other code. */
  method StatusSwitch(version: string, code: int, target: string, conf: Config, w: World)
    returns (line: string, page: string)
    ensures line == StartLine(version, code) && page == BodyFor(code, target, conf, w)
  {
    if code == OK {
      line := version + " 200 OK";
      if target != [] && target[0] == '/' {
        page := w.page(target);
      } else if target != [] {
        page := w.page(AbsPath(target, w));
      } else {
        page := PageContent("200", conf, w);
      }
    } else if code == NoContent {
      line := version + " 204 No Content";
      page := PageContent("204", conf, w);
    } else if code == BadRequest {
      line := version + " 400 Bad Request";
      page := PageContent("400", conf, w);
    } else if code == NotFound {
      line := version + " 404 Not Found";
      page := PageContent("404", conf, w);
    } else {
      line := version + " 400 Bad Request";
      page := PageContent("400", conf, w);
    }
  }

  // ---------------------------------------------------------------- the response

  class Response {
    const req: RequestView
    const conf: Config
    const world: World
    var statusCode: int
    var error: ResponseError
    var target: string
    var startLine: string
    var headerSection: string
    var body: string
    var content: string
    var bytesSent: nat

    /** The message fields agree with the status code and the target. */
    predicate Formed()
      reads this
    {
      startLine == StartLine(req.httpVersion, statusCode) &&
      body == BodyFor(statusCode, target, conf, world) &&
      headerSection == HeaderSection(HostOf(req), world.date, |body|) &&
      content == Message(startLine, headerSection, body)
    }

    /** `Response(req, conf)`: decides the status, then forms the message. */
    constructor(req: RequestView, status: RequestStatus, conf: Config, world: World)
      ensures this.req == req && this.conf == conf && this.world == world
      ensures EarlyStatus(status) != Unassigned ==> statusCode == EarlyStatus(status) && error == NoError && target == []
      ensures EarlyStatus(status) == Unassigned && TargetRejected(req.target) ==>
        statusCode == BadRequest && error == BadTarget && target == []
      ensures EarlyStatus(status) == Unassigned && !TargetRejected(req.target) ==>
        target == Resolve(req.target, conf, world) && statusCode == MethodStatus(req.verb, target, world) && error == NoError
      ensures Formed() && bytesSent == 0
    {
      this.req := req;
      this.conf := conf;
      this.world := world;
      var code, err, resolved := Decide(req, status, conf, world);
      statusCode, error, target := code, err, resolved;
      startLine, headerSection, body, content := [], [], [], [];
      bytesSent := 0;
      new;
      FormResponse();
    }

    /** `formResponse`: the three fixed headers, the start line and body for
        the status code, then `Content-Length` and the whole message. */
    method FormResponse()
      modifies this
      ensures Formed()
      ensures statusCode == old(statusCode) && error == old(error) && target == old(target)
      ensures bytesSent == old(bytesSent)
    {
      var section := "Server: " + HostOf(req) + CRLF;
      section := section + "Date: " + world.date + CRLF;
      section := section + "Content-Type: text/html" + CRLF;
      var line, page := StatusSwitch(req.httpVersion, statusCode, target, conf, world);
      section := section + "Content-Length: " + NatToString(|page|) + CRLF;
      startLine, body, headerSection := line, page, section;
      content := startLine + CRLF + headerSection + CRLF + body;
    }

    /** `sendToClient`, given what `send` returns: nothing happens when no
        bytes remain; a negative result is the thrown error; otherwise the
        count grows by what was sent. */
    method SendToClient(sent: int) returns (failed: bool)
      modifies this`bytesSent
      requires bytesSent <= |content|
      requires sent <= |content| - bytesSent
      ensures bytesSent <= |content|
      ensures bytesSent >= old(bytesSent)
      ensures old(bytesSent) == |content| ==> !failed && bytesSent == old(bytesSent)
      ensures old(bytesSent) < |content| ==> (failed <==> sent < 0)
      ensures bytesSent == if old(bytesSent) < |content| && sent >= 0 then old(bytesSent) + sent else old(bytesSent)
    {
      var toSend := |content| - bytesSent;
      if toSend == 0 {
        return false;
      }
      if sent < 0 {
        return true;
      }
      bytesSent := bytesSent + sent;
      return false;
    }

    /** `sendIsComplete`. */
    function SendIsComplete(): (done: bool)
      reads this
    {
      bytesSent >= |content|
    }
  }

  /** Sending never overshoots, so the response is complete exactly when
      every byte of the message has gone out. */
  lemma CompleteWhenAllSent(r: Response)
    requires r.bytesSent <= |r.content|
    ensures r.SendIsComplete() <==> r.bytesSent == |r.content|
    ensures !r.SendIsComplete() ==> r.bytesSent < |r.content|
  {
  }
}
