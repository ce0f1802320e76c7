/** The request parser of `srcs/Request.cpp`: the missing-data check, the
    request line (section 3 of RFC 9112), the header lines with the
    single-value rule and the `Host` requirement, keep-alive detection and
    the body. */
module Request {
  import opened Text
  import opened HttpTypes

  // ---------------------------------------------------------------- the input stream

  /** A `std::istringstream`: the text not read yet, and the end-of-file and
      failure flags. */
  datatype Stream = Stream(rest: string, eof: bool, fail: bool)

  predicate Good(st: Stream) { !st.eof && !st.fail }

  /** The lines `std::getline` will still deliver. */
  function Lines(st: Stream): seq<string> {
    if Good(st) then Pieces(st.rest, '\n') else []
  }

  /** The stream, the line variable and whether the stream still converts
      to true after a `std::getline` call. */
  datatype Read = Read(st: Stream, line: string, ok: bool)

  /** `std::getline(stream, line)`. A stream that is not good only gains
      the failure flag and `line` keeps its old text. Otherwise the line is
      the text up to the next `'\n'`, which is consumed; meeting the end
      sets end-of-file, and meeting it with nothing read sets failure and
      leaves `line` empty. */
  function GetLine(st: Stream, line: string): (r: Read)
    ensures r.ok <==> Lines(st) != []
    ensures r.ok ==> r.line == Lines(st)[0] && Lines(r.st) == Lines(st)[1..]
    ensures !r.ok ==> Lines(r.st) == [] && !Good(r.st)
    ensures !Good(st) ==> r == Read(st.(fail := true), line, false)
  {
    if !Good(st) then Read(st.(fail := true), line, false)
    else
      match FindChar(st.rest, '\n')
      case Some(k) => Read(Stream(st.rest[k + 1..], false, false), st.rest[..k], true)
      case None =>
        if st.rest == [] then Read(Stream([], true, true), [], false)
        else Read(Stream([], true, false), st.rest, true)
  }

  // ---------------------------------------------------------------- missing data

  /** `find_last_of("\r\n")`. */
  function LastBreak(s: string): (r: Option<nat>)
    ensures r.Some? ==> r.value < |s| && s[r.value] in {'\r', '\n'}
    ensures forall j :: 0 <= j < |s| && (r.None? || r.value < j) ==> s[j] !in {'\r', '\n'}
    decreases |s|
  {
    if s == [] then None
    else if s[|s| - 1] in {'\r', '\n'} then Some(|s| - 1)
    else LastBreak(s[..|s| - 1])
  }

  /** The constructor's test: no line break at all, or a character after
      the last one that is not NUL. */
  predicate MissingData(buf: string) {
    match LastBreak(buf)
    case None => true
    case Some(e) => e + 1 < |buf| && buf[e + 1] != '\0'
  }

  /** For text without NUL characters, data is missing exactly when the
      text is empty or does not end in `'\r'` or `'\n'`. */
  lemma MissingDataMeans(buf: string)
    requires NoChar(buf, '\0')
    ensures MissingData(buf) <==> buf == [] || buf[|buf| - 1] !in {'\r', '\n'}
  {
    if buf != [] && buf[|buf| - 1] !in {'\r', '\n'} {
      match LastBreak(buf)
      case None =>
      case Some(e) => assert buf[e + 1] != '\0';
    }
  }

  // ---------------------------------------------------------------- the request line

  /** No character of `w` is white space. */
  predicate NoSpace(w: string) { forall k :: 0 <= k < |w| ==> !IsSpace(w[k]) }

  /** The end of the word that starts at `i`. */
  function WordEnd(s: string, i: nat): (n: nat)
    requires i <= |s|
    ensures i <= n <= |s|
    ensures forall k :: i <= k < n ==> !IsSpace(s[k])
    ensures n < |s| ==> IsSpace(s[n])
    decreases |s| - i
  {
    if i == |s| || IsSpace(s[i]) then i else WordEnd(s, i + 1)
  }

  /** The words `operator>>` extracts in turn: white space skipped, then
      everything up to the next white space. */
  function Words(s: string): (r: seq<string>)
    ensures forall j :: 0 <= j < |r| ==> r[j] != [] && NoSpace(r[j])
    decreases |s|
  {
    if s == [] then []
    else if IsSpace(s[0]) then Words(s[1..])
    else
      var n := WordEnd(s, 0);
      assert forall k :: 0 <= k < n ==> s[..n][k] == s[k];
      [s[..n]] + Words(s[n..])
  }

  /** The words laid end to end. */
  function Concat(ws: seq<string>): string
    decreases |ws|
  {
    if ws == [] then [] else ws[0] + Concat(ws[1..])
  }

  /** The text with its white space taken out. */
  function Squeezed(s: string): string
    decreases |s|
  {
    if s == [] then [] else (if IsSpace(s[0]) then [] else [s[0]]) + Squeezed(s[1..])
  }

  predicate AllSpace(s: string) { forall k :: 0 <= k < |s| ==> IsSpace(s[k]) }

  /** The first non-space position from `i` on. */
  function SkipSpace(s: string, i: nat): (n: nat)
    requires i <= |s|
    ensures i <= n <= |s|
    ensures forall k :: i <= k < n ==> IsSpace(s[k])
    ensures n < |s| ==> !IsSpace(s[n])
    decreases |s| - i
  {
    if i == |s| || !IsSpace(s[i]) then i else SkipSpace(s, i + 1)
  }

  /** The words are the maximal runs of non-space characters, in order:
      laid end to end they are the text without its white space, there are
      none exactly when the text is all white space, and the first one runs
      from the first non-space character to the next white space. */
  predicate WordsAreRuns(s: string) {
    Concat(Words(s)) == Squeezed(s) &&
    (Words(s) == [] <==> AllSpace(s)) &&
    (Words(s) != [] ==> Words(s)[0] == s[SkipSpace(s, 0)..WordEnd(s, SkipSpace(s, 0))])
  }

  lemma {:induction false} WordsRuns(s: string)
    ensures Concat(Words(s)) == Squeezed(s)
    ensures Words(s) == [] <==> AllSpace(s)
    ensures Words(s) != [] ==> Words(s)[0] == s[SkipSpace(s, 0)..WordEnd(s, SkipSpace(s, 0))]
    decreases |s|
  {
    if s == [] {
    } else if IsSpace(s[0]) {
      WordsRuns(s[1..]);
      RunsAfterSpace(s);
    } else {
      var n := WordEnd(s, 0);
      WordsRuns(s[n..]);
      RunsAfterWord(s);
    }
  }

  /** The step of `WordsRuns` over leading white space. */
  lemma RunsAfterSpace(s: string)
    requires s != [] && IsSpace(s[0]) && WordsAreRuns(s[1..])
    ensures WordsAreRuns(s)
  {
    var t := s[1..];
    assert Words(s) == Words(t);
    assert Squeezed(s) == Squeezed(t);
    AllSpaceTail(s);
    if Words(s) != [] {
      FirstWordAfterSpace(s);
    }
  }

  lemma AllSpaceTail(s: string)
    requires s != [] && IsSpace(s[0])
    ensures AllSpace(s) <==> AllSpace(s[1..])
  {
    assert forall k :: 1 <= k < |s| ==> s[k] == s[1..][k - 1];
  }

  /** Past a leading white-space character, the first word is the first
      word of the rest. */
  lemma FirstWordAfterSpace(s: string)
    requires s != [] && IsSpace(s[0]) && SkipSpace(s[1..], 0) < |s[1..]|
    ensures var t, i := s[1..], SkipSpace(s, 0);
      s[i..WordEnd(s, i)] == t[SkipSpace(t, 0)..WordEnd(t, SkipSpace(t, 0))]
  {
    var i := SkipSpace(s, 0);
    assert i == SkipSpace(s, 1);
    SkipShift(s, 1);
    var j := SkipSpace(s[1..], 0);
    assert i == j + 1;
    WordEndShift(s, i);
    var e := WordEnd(s, i);
    assert WordEnd(s[1..], j) + 1 == e;
    SliceShift(s, j, WordEnd(s[1..], j));
  }

  lemma SliceShift(s: string, j: nat, f: nat)
    requires j <= f < |s|
    ensures s[1..][j..f] == s[j + 1..f + 1]
  {
  }

  /** The step of `WordsRuns` over a leading word. */
  lemma RunsAfterWord(s: string)
    requires s != [] && !IsSpace(s[0]) && WordsAreRuns(s[WordEnd(s, 0)..])
    ensures WordsAreRuns(s)
  {
    var n := WordEnd(s, 0);
    assert NoSpace(s[..n]) by {
      assert forall k :: 0 <= k < n ==> s[..n][k] == s[k];
    }
    SqueezedSplit(s, n);
    assert Words(s) == [s[..n]] + Words(s[n..]);
    assert ([s[..n]] + Words(s[n..]))[1..] == Words(s[n..]);
    assert !AllSpace(s);
    assert SkipSpace(s, 0) == 0;
  }

  /** The first non-space position is found the same way in the text
      without its first character. */
  lemma {:induction false} SkipShift(s: string, i: nat)
    requires 1 <= i <= |s|
    ensures SkipSpace(s[1..], i - 1) == SkipSpace(s, i) - 1
    decreases |s| - i
  {
    if i < |s| {
      assert s[1..][i - 1] == s[i];
      if IsSpace(s[i]) {
        SkipShift(s, i + 1);
      }
    }
  }

  /** A word end is found the same way in the text without its first
      character. */
  lemma {:induction false} WordEndShift(s: string, i: nat)
    requires 1 <= i <= |s|
    ensures WordEnd(s[1..], i - 1) == WordEnd(s, i) - 1
    decreases |s| - i
  {
    if i < |s| {
      assert s[1..][i - 1] == s[i];
      if !IsSpace(s[i]) {
        WordEndShift(s, i + 1);
      }
    }
  }

  /** A space-free prefix is kept whole by `Squeezed`. */
  lemma {:induction false} SqueezedSplit(s: string, n: nat)
    requires n <= |s| && NoSpace(s[..n])
    ensures Squeezed(s) == s[..n] + Squeezed(s[n..])
    decreases n
  {
    if n > 0 {
      assert s[..n][0] == s[0];
      var t := s[1..][..n - 1];
      assert NoSpace(t) by {
        assert forall k :: 0 <= k < |t| ==> t[k] == s[k + 1];
      }
      SqueezedSplit(s[1..], n - 1);
      assert s[..n] == [s[0]] + s[1..][..n - 1];
      assert s[1..][n - 1..] == s[n..];
    }
  }

  /** The method table of `parseRequestLine`, with its third entry as
      written. */
  const MethodTable: seq<string> := ["GET", "POST", "DELETE "]

  /** The method of each table entry. */
  function MethodFor(word: string): Method {
    if word == "GET" then Get else if word == "POST" then Post else if word == "DELETE " then Delete else Unknown
  }

  /** `areValidChars` rejects a character below 32, 127, `'<'`, `'>'`,
      `'"'` and `'\\'`; bytes from 128 are negative as a signed `char` and
      so below 32. */
  predicate Forbidden(c: char) {
    c as int < 32 || c as int >= 127 || c == '<' || c == '>' || c == '"' || c == '\\'
  }

  predicate CharsAllowed(s: string) { forall i :: 0 <= i < |s| ==> !Forbidden(s[i]) }

  /** A target with `"://"` names the `http` or `https` scheme before it. */
  predicate SchemeOk(target: string) {
    match Find(target, "://")
    case None => true
    case Some(p) => target[..p] == "http" || target[..p] == "https"
  }

  /** What `isTargetValid` accepts. */
  predicate TargetAccepted(target: string) {
    (|target| == 1 ==> target == "/") && CharsAllowed(target) && SchemeOk(target)
  }

  /** The path: the target up to its first `'?'`. */
  function PathOf(target: string): string {
    match FindChar(target, '?')
    case None => target
    case Some(q) => target[..q]
  }

  /** The query after the first `'?'`, if there is one; else `prior`. */
  function QueryOf(target: string, prior: Option<string>): Option<string> {
    match FindChar(target, '?')
    case None => prior
    case Some(q) => Some(target[q + 1..])
  }

  /** What `std::regex_match` with `HTTP/1.([01])` accepts: `"HTTP/1"`, one
      character other than a line terminator, then `'0'` or `'1'`. */
  predicate VersionMatches(v: string) {
    |v| == 8 && v[..6] == "HTTP/1" && v[6] != '\n' && v[6] != '\r' && (v[7] == '0' || v[7] == '1')
  }

  /** What `parseRequestLine` accepts: three words, a method found in the
      table, an accepted target and a matching version. */
  predicate LineAccepted(line: string) {
    var w := Words(line);
    |w| >= 3 && w[0] in MethodTable && TargetAccepted(w[1]) && VersionMatches(w[2])
  }

  /** No word is `"DELETE "`: only `GET` and `POST` are accepted. */
  lemma OnlyGetAndPost(line: string)
    ensures LineAccepted(line) ==> Words(line)[0] in {"GET", "POST"}
    ensures |Words(line)| >= 1 && Words(line)[0] == "DELETE" ==> !LineAccepted(line)
  {
    var w := Words(line);
    assert IsSpace("DELETE "[6]);
    assert forall j :: 0 <= j < |w| ==> w[j] != "DELETE ";
  }

  /** The method table as evidently intended, with `DELETE` written
      without the space. */
  const IntendedMethodTable: seq<string> := ["GET", "POST", "DELETE"]

  /** What `parseRequestLine` accepts with the intended table. */
  predicate LineAcceptedIntended(line: string) {
    var w := Words(line);
    |w| >= 3 && w[0] in IntendedMethodTable && TargetAccepted(w[1]) && VersionMatches(w[2])
  }

  /** The intended table accepts every line the table as written accepts,
      and exactly the `DELETE` lines besides; `DELETE / HTTP/1.1` is
      refused as written and accepted as intended. */
  lemma DeleteAcceptedIntended(line: string)
    ensures LineAcceptedIntended(line) <==>
      LineAccepted(line) ||
      (var w := Words(line); |w| >= 3 && w[0] == "DELETE" && TargetAccepted(w[1]) && VersionMatches(w[2]))
    ensures !LineAccepted("DELETE / HTTP/1.1") && LineAcceptedIntended("DELETE / HTTP/1.1")
  {
    OnlyGetAndPost(line);
    DeleteLineWords();
    OnlyGetAndPost("DELETE / HTTP/1.1");
    assert TargetAccepted("/");
    assert VersionMatches("HTTP/1.1");
  }

  /** The words of a `DELETE` request line. */
  lemma DeleteLineWords()
    ensures Words("DELETE / HTTP/1.1") == ["DELETE", "/", "HTTP/1.1"]
  {
    assert "DELETE / HTTP/1.1" == "DELETE" + " " + "/" + " " + "HTTP/1.1";
    assert NoSpace("DELETE") && NoSpace("/") && NoSpace("HTTP/1.1");
    WordsThree("DELETE", "/", "HTTP/1.1");
  }

  /** Three words, each without white space, separated by single spaces. */
  lemma WordsThree(a: string, b: string, c: string)
    requires a != [] && b != [] && c != [] && NoSpace(a) && NoSpace(b) && NoSpace(c)
    ensures Words(a + " " + b + " " + c) == [a, b, c]
  {
    var r1 := " " + (b + " " + c);
    assert a + " " + b + " " + c == a + r1;
    WordsTwo(b, c);
    WordsSpace(b + " " + c);
    WordsCons(a, r1);
  }

  lemma WordsTwo(b: string, c: string)
    requires b != [] && c != [] && NoSpace(b) && NoSpace(c)
    ensures Words(b + " " + c) == [b, c]
  {
    var r2 := " " + c;
    assert b + " " + c == b + r2;
    WordsCons(c, "");
    assert c + "" == c;
    WordsSpace(c);
    WordsCons(b, r2);
  }

  /** Leading white space is skipped. */
  lemma WordsSpace(x: string)
    ensures Words(" " + x) == Words(x)
  {
    assert (" " + x)[1..] == x;
  }

  /** A space-free word followed by white space or nothing is the first
      word. */
  lemma WordsCons(a: string, rest: string)
    requires a != [] && NoSpace(a) && (rest == [] || IsSpace(rest[0]))
    ensures Words(a + rest) == [a] + Words(rest)
  {
    var s := a + rest;
    WordEndOf(s, 0, |a|);
    assert s[..|a|] == a && s[|a|..] == rest;
  }

  lemma {:induction false} WordEndOf(s: string, i: nat, n: nat)
    requires i <= n <= |s| && (forall k :: i <= k < n ==> !IsSpace(s[k]))
    requires n == |s| || IsSpace(s[n])
    ensures WordEnd(s, i) == n
    decreases n - i
  {
    if i < n {
      WordEndOf(s, i + 1, n);
    }
  }

  /** The target is the path, then `'?'` and the query when there is one;
      the path holds no `'?'`. */
  lemma TargetSplit(target: string)
    ensures NoChar(PathOf(target), '?')
    ensures QueryOf(target, None).None? ==> PathOf(target) == target
    ensures QueryOf(target, None).Some? ==> PathOf(target) + "?" + QueryOf(target, None).value == target
  {
    FindCharPrefix(target, '?');
    match FindChar(target, '?')
    case None =>
    case Some(q) => assert target == target[..q] + [target[q]] + target[q + 1..];
  }

  /** The version test admits both versions, and any character in place of
      the dot. */
  lemma VersionExamples()
    ensures VersionMatches("HTTP/1.0") && VersionMatches("HTTP/1.1")
    ensures VersionMatches("HTTP/1x1")
    ensures !VersionMatches("HTTP/2.0") && !VersionMatches("HTTP/1.10")
  {
    assert "HTTP/2.0"[..6] != "HTTP/1" by {
      assert "HTTP/2.0"[5] == '2';
    }
  }

  // ---------------------------------------------------------------- headers

  /** Header names to the values collected for them. */
  type Table = map<string, seq<string>>

  /** The names `isUniqueHeader` lists. */
  const UniqueHeaders: set<string> := {
    "accept-datetime", "access-control-request-method", "authorization",
    "content-length", "content-md5", "date", "from", "host", "http2-settings",
    "if-modified-since", "if-range", "if-unmodified-since", "max-forwards",
    "origin", "pragma", "proxy-authorization", "referer"}

  /** `isUniqueHeader`. */
  predicate IsUniqueHeader(key: string) { key in UniqueHeaders }

  /** `_headers[key]` with `vs` pushed at its end. */
  function Add(t: Table, key: string, vs: seq<string>): Table {
    t[key := (if key in t then t[key] else []) + vs]
  }

  /** The values of one header value: the pieces between `','` when it
      holds one, else the value itself. */
  function ValuesOf(value: string): (r: seq<string>)
    ensures r != []
  {
    if FindChar(value, ',').None? then [value] else Pieces(value, ',')
  }

  /** The header table after the leading lines that hold a `':'`: each
      adds the values after the colon and one more character under the
      lower-cased text before it. None when the colon of such a line is its
      last character, where `substr` throws. */
  function Collect(t: Table, ls: seq<string>): Option<Table>
    decreases |ls|
  {
    if ls == [] then Some(t)
    else
      match FindChar(ls[0], ':')
      case None => Some(t)
      case Some(p) =>
        if p + 2 > |ls[0]| then None
        else Collect(Add(t, Lower(ls[0][..p]), ValuesOf(ls[0][p + 2..])), ls[1..])
  }

  /** How many lines the header loop reads: the lines with a `':'` and the
      first line without one. */
  function Consumed(ls: seq<string>): (n: nat)
    ensures n <= |ls|
    decreases |ls|
  {
    if ls == [] then 0
    else if FindChar(ls[0], ':').None? then 1
    else 1 + Consumed(ls[1..])
  }

  /** Every name in the table is lower case, and every name has a value. */
  predicate TableShape(t: Table) {
    forall k :: k in t ==> Lower(k) == k && t[k] != []
  }

  lemma LowerIdempotent(s: string)
    ensures Lower(Lower(s)) == Lower(s)
  {
  }

  /** Collecting keeps the table's shape. */
  lemma {:induction false} CollectShape(t: Table, ls: seq<string>)
    requires TableShape(t)
    ensures Collect(t, ls).Some? ==> TableShape(Collect(t, ls).value)
    decreases |ls|
  {
    if ls != [] {
      match FindChar(ls[0], ':')
      case None =>
      case Some(p) =>
        if p + 2 <= |ls[0]| {
          var key := Lower(ls[0][..p]);
          LowerIdempotent(ls[0][..p]);
          CollectShape(Add(t, key, ValuesOf(ls[0][p + 2..])), ls[1..]);
        }
    }
  }

  /** A line `name: v` adds `v` under the lower-cased name, and the values
      added give `v` back when joined with `','`, apart from one final
      `','`. */
  lemma OneHeaderLine(t: Table, name: string, v: string)
    requires NoChar(name, ':')
    ensures var line := name + ": " + v;
      Collect(t, [line]) == Some(Add(t, Lower(name), ValuesOf(v)))
    ensures Join(ValuesOf(v), ",") + FinalDelim(v, ',') == v
  {
    CollectOneLine(t, name, v);
    ValuesJoinBack(v);
  }

  lemma CollectOneLine(t: Table, name: string, v: string)
    requires NoChar(name, ':')
    ensures Collect(t, [name + ": " + v]) == Some(Add(t, Lower(name), ValuesOf(v)))
  {
    var line := name + ": " + v;
    assert line == name + [':'] + (" " + v);
    FindCharAfter(name, ':', " " + v);
    assert line[..|name|] == name && line[|name| + 2..] == v;
    var none: seq<string> := [];
    assert [line][1..] == none;
  }

  /** The values of a header join back to its text. */
  lemma ValuesJoinBack(v: string)
    ensures Join(ValuesOf(v), ",") + FinalDelim(v, ',') == v
  {
    if FindChar(v, ',').None? {
      FindCharPrefix(v, ',');
      if v != [] {
        assert v[|v| - 1] != ',';
      }
    } else {
      PiecesJoin(v, ',');
    }
  }

  /** No name in the unique set carries more than one value. */
  predicate NoRepeatedUnique(t: Table) {
    forall k :: k in t && IsUniqueHeader(k) ==> |t[k]| <= 1
  }

  /** The header rules: some header, a `host` with a value, and no unique
      name with several values. */
  predicate HeadersAccepted(t: Table) {
    t != map[] && "host" in t && t["host"] != [] && NoRepeatedUnique(t)
  }

  /** The exact `connection` value that turns keep-alive on. */
  const KeepAliveValue: string := "keep-alive\r"

  predicate AsksKeepAlive(t: Table) {
    "connection" in t && KeepAliveValue in t["connection"]
  }

  // ---------------------------------------------------------------- the header loop as written

  /** One pass of `parseHeaders`' loop as written, where the result of
      `std::getline` is not looked at. */
  datatype LoopState = Running(st: Stream, line: string, table: Table) | Stopped(table: Table) | Threw

  function StepAsWritten(st: Stream, line: string, t: Table): LoopState {
    var r := GetLine(st, line);
    match FindChar(r.line, ':')
    case None => Stopped(t)
    case Some(p) =>
      if p + 2 > |r.line| then Threw
      else Running(r.st, r.line, Add(t, Lower(r.line[..p]), ValuesOf(r.line[p + 2..])))
  }

  function RunAsWritten(s: LoopState, n: nat): LoopState
    decreases n
  {
    if n == 0 then s
    else match s
      case Running(st, line, t) => RunAsWritten(StepAsWritten(st, line, t), n - 1)
      case _ => s
  }

  /** How many values the table holds under `key`. */
  function Count(t: Table, key: string): nat {
    if key in t then |t[key]| else 0
  }

  /** Once the stream is exhausted, a last line that holds a `':'` (with
      something after it) is read again on every pass: the loop never stops
      and the table grows without bound. */
  lemma {:induction false} HeaderLoopNeverStops(st: Stream, line: string, t: Table, p: nat, n: nat)
    requires !Good(st) && FindChar(line, ':') == Some(p) && p + 2 <= |line|
    ensures var r := RunAsWritten(Running(st, line, t), n);
      r.Running? && r.line == line && !Good(r.st) && Count(r.table, Lower(line[..p])) >= Count(t, Lower(line[..p])) + n
    decreases n
  {
    if n > 0 {
      var key := Lower(line[..p]);
      var t1 := Add(t, key, ValuesOf(line[p + 2..]));
      assert StepAsWritten(st, line, t) == Running(st.(fail := true), line, t1);
      HeaderLoopNeverStops(st.(fail := true), line, t1, p, n - 1);
    }
  }

  /** The end state of the loop for a `Collect` result: stopped with the
      table, or thrown. */
  function Outcome(c: Option<Table>): LoopState {
    match c
    case Some(t1) => Stopped(t1)
    case None => Threw
  }

  /** Where a line without `':'` is still to come, the loop as written
      stops (or throws) after the same lines as `Collect` reads, with the
      same table: replacing it by `CollectHeaders` changes nothing there. */
  lemma {:induction false} AsWrittenAgrees(st: Stream, line: string, t: Table, i: nat)
    requires i < |Lines(st)| && FindChar(Lines(st)[i], ':').None?
    ensures RunAsWritten(Running(st, line, t), Consumed(Lines(st))) == Outcome(Collect(t, Lines(st)))
    decreases i
  {
    var ls := Lines(st);
    var found := FindChar(ls[0], ':');
    if found.None? {
      StopPass(st, line, t);
    } else if found.value + 2 > |ls[0]| {
      ThrowPass(st, line, t, found.value);
    } else {
      var next, t1 := HeaderPass(st, line, t, found.value);
      var rest := Lines(next);
      assert i != 0 && rest[i - 1] == ls[i];
      AsWrittenAgrees(next, ls[0], t1, i - 1);
      var after := RunAsWritten(Running(next, ls[0], t1), Consumed(rest));
      assert after == Outcome(Collect(t1, rest));
      assert RunAsWritten(Running(st, line, t), Consumed(ls)) == after;
      assert Collect(t, ls) == Collect(t1, rest);
    }
  }

  /** A first line without `':'`: one pass, and the loop stops. */
  lemma StopPass(st: Stream, line: string, t: Table)
    requires Lines(st) != [] && FindChar(Lines(st)[0], ':').None?
    ensures RunAsWritten(Running(st, line, t), Consumed(Lines(st))) == Stopped(t)
    ensures Collect(t, Lines(st)) == Some(t)
  {
    assert Consumed(Lines(st)) == 1;
    assert StepAsWritten(st, line, t) == Stopped(t);
  }

  /** A first line whose `':'` ends it: `substr` throws. */
  lemma ThrowPass(st: Stream, line: string, t: Table, p: nat)
    requires Lines(st) != [] && FindChar(Lines(st)[0], ':') == Some(p) && p + 2 > |Lines(st)[0]|
    ensures RunAsWritten(Running(st, line, t), Consumed(Lines(st))) == Threw
    ensures Collect(t, Lines(st)) == None
  {
    var n := Consumed(Lines(st));
    assert n >= 1;
    assert StepAsWritten(st, line, t) == Threw;
    ThrewStays(n - 1);
  }

  /** A first header line: one pass adds it, and the rest is read from the
      stream that follows it. */
  lemma HeaderPass(st: Stream, line: string, t: Table, p: nat) returns (next: Stream, t1: Table)
    requires Lines(st) != [] && FindChar(Lines(st)[0], ':') == Some(p) && p + 2 <= |Lines(st)[0]|
    ensures Lines(next) == Lines(st)[1..]
    ensures RunAsWritten(Running(st, line, t), Consumed(Lines(st))) ==
      RunAsWritten(Running(next, Lines(st)[0], t1), Consumed(Lines(next)))
    ensures Collect(t, Lines(st)) == Collect(t1, Lines(next))
  {
    var ls := Lines(st);
    var l := ls[0];
    next := GetLine(st, line).st;
    t1 := Add(t, Lower(l[..p]), ValuesOf(l[p + 2..]));
    HeaderStep(st, line, t, p);
    HeaderLineCounts(t, ls, p);
    RunUnfold(Running(st, line, t), Consumed(ls[1..]));
  }

  /** What one pass does with a first header line. */
  lemma HeaderStep(st: Stream, line: string, t: Table, p: nat)
    requires Lines(st) != [] && FindChar(Lines(st)[0], ':') == Some(p) && p + 2 <= |Lines(st)[0]|
    ensures var l := Lines(st)[0];
      Lines(GetLine(st, line).st) == Lines(st)[1..] &&
      StepAsWritten(st, line, t) == Running(GetLine(st, line).st, l, Add(t, Lower(l[..p]), ValuesOf(l[p + 2..])))
  {
    assert GetLine(st, line).line == Lines(st)[0];
  }

  /** A first header line counts as one line read and adds to the table. */
  lemma HeaderLineCounts(t: Table, ls: seq<string>, p: nat)
    requires ls != [] && FindChar(ls[0], ':') == Some(p) && p + 2 <= |ls[0]|
    ensures Consumed(ls) == 1 + Consumed(ls[1..])
    ensures Collect(t, ls) == Collect(Add(t, Lower(ls[0][..p]), ValuesOf(ls[0][p + 2..])), ls[1..])
  {
  }

  lemma RunUnfold(s: LoopState, k: nat)
    requires s.Running?
    ensures RunAsWritten(s, 1 + k) == RunAsWritten(StepAsWritten(s.st, s.line, s.table), k)
  {
  }

  lemma ThrewStays(n: nat)
    ensures RunAsWritten(Threw, n) == Threw
  {
  }

  /** The empty line that ends a header section sent with CRLF is the line
      `"\r"`, which holds no `':'`: the loop as written stops there, as
      `Collect` does. */
  lemma BlankLineStops(st: Stream, line: string, t: Table, hs: seq<string>, rest: seq<string>)
    requires Lines(st) == hs + ["\r"] + rest
    ensures RunAsWritten(Running(st, line, t), Consumed(Lines(st))) == Outcome(Collect(t, Lines(st)))
  {
    FindCharAbsent("\r", ':');
    AsWrittenAgrees(st, line, t, |hs|);
  }

  /** A text whose last line is not ended by `'\n'` leaves the stream at
      its end after that line, so a header there is read again and again. */
  lemma LastLineLeavesStreamAtEnd(a: string, b: string)
    requires NoChar(a, '\n') && NoChar(b, '\n') && b != []
    ensures var r1 := GetLine(Stream(a + "\n" + b, false, false), []);
      var r2 := GetLine(r1.st, r1.line);
      r1.line == a && r2.line == b && !Good(r2.st)
  {
    FindCharAfter(a, '\n', b);
    assert (a + "\n" + b)[..|a|] == a && (a + "\n" + b)[|a| + 1..] == b;
    FindCharAbsent(b, '\n');
  }

  // ---------------------------------------------------------------- the request

  /** `RequestLine`. The method is `Unknown` until the request line sets
      it. */
  datatype RequestLine = RequestLine(target: string, query: Option<string>, httpVersion: string, verb: Method)

  const NoRequestLine := RequestLine("", None, "", Unknown)

  /** The first line of a buffer: empty when there is none. */
  function FirstLine(buf: string): (r: string)
    ensures Pieces(buf, '\n') != [] ==> r == Pieces(buf, '\n')[0]
    ensures Pieces(buf, '\n') == [] ==> r == []
  {
    GetLine(Stream(buf, false, false), []).line
  }

  /** The lines after the first. */
  function HeaderLines(buf: string): (r: seq<string>)
    ensures Pieces(buf, '\n') != [] ==> r == Pieces(buf, '\n')[1..]
    ensures Pieces(buf, '\n') == [] ==> r == []
  {
    Lines(GetLine(Stream(buf, false, false), []).st)
  }

  /** The fields an accepted request line sets. */
  function LineFields(line: string): RequestLine
    requires LineAccepted(line)
  {
    var w := Words(line);
    RequestLine(PathOf(w[1]), QueryOf(w[1], None), w[2], MethodFor(w[0]))
  }

  /** One received request, parsed by its constructor. `outOfRange` records
      that `substr` threw while the headers were read. */
  class Request {
    var fd: int
    var keepAlive: bool
    var isValid: bool
    var isMissingData: bool
    var outOfRange: bool
    var request: RequestLine
    var headers: Table
    var body: string

    /** `Request(fd, buf)`: the missing-data flag, then the request line,
        the headers and the body, stopping at the first failure. */
    constructor(fd: int, buf: string)
      ensures this.fd == fd && isMissingData == MissingData(buf)
      ensures !LineAccepted(FirstLine(buf)) ==>
        !isValid && !keepAlive && !outOfRange && headers == map[] && body == []
      ensures LineAccepted(FirstLine(buf)) ==> request == LineFields(FirstLine(buf))
      ensures LineAccepted(FirstLine(buf)) ==> (outOfRange <==> Collect(map[], HeaderLines(buf)).None?)
      ensures LineAccepted(FirstLine(buf)) && !outOfRange ==>
        Collect(map[], HeaderLines(buf)) == Some(headers) &&
        isValid == HeadersAccepted(headers) &&
        keepAlive == (headers != map[] && NoRepeatedUnique(headers) && AsksKeepAlive(headers)) &&
        body == (if isValid then Join(HeaderLines(buf)[Consumed(HeaderLines(buf))..], "") else [])
    {
      this.fd := fd;
      keepAlive := false;
      isValid := true;
      var end := LastBreak(buf);
      isMissingData := (end.Some? && end.value + 1 < |buf| && buf[end.value + 1] != '\0') || end.None?;
      outOfRange := false;
      request := NoRequestLine;
      headers := map[];
      body := [];
      new;
      Parse(buf);
    }

    /** The constructor's parsing steps, from a freshly reset state: the
        request line, the headers and the body, stopping at the first
        failure. */
    method Parse(buf: string)
      modifies this
      requires isValid && !keepAlive && !outOfRange
      requires request == NoRequestLine && headers == map[] && body == []
      ensures fd == old(fd) && isMissingData == old(isMissingData)
      ensures !LineAccepted(FirstLine(buf)) ==>
        !isValid && !keepAlive && !outOfRange && headers == map[] && body == []
      ensures LineAccepted(FirstLine(buf)) ==> request == LineFields(FirstLine(buf))
      ensures LineAccepted(FirstLine(buf)) ==> (outOfRange <==> Collect(map[], HeaderLines(buf)).None?)
      ensures LineAccepted(FirstLine(buf)) && !outOfRange ==>
        Collect(map[], HeaderLines(buf)) == Some(headers) &&
        isValid == HeadersAccepted(headers) &&
        keepAlive == (headers != map[] && NoRepeatedUnique(headers) && AsksKeepAlive(headers)) &&
        body == (if isValid then Join(HeaderLines(buf)[Consumed(HeaderLines(buf))..], "") else [])
    {
      var first := GetLine(Stream(buf, false, false), []);
      ParseRequestLine(first.line);
      if !isValid {
        return;
      }
      var st := ParseHeaders(first.st);
      if outOfRange || !isValid {
        return;
      }
      var text := ReadRest(st);
      body := body + text;
    }

    /** `parseRequestLine`: three words, a method looked up in the table,
        then the target and the version. */
    method ParseRequestLine(line: string)
      modifies this
      ensures var w := Words(line);
        isValid == (old(isValid) && LineAccepted(line)) &&
        (|w| < 3 || w[0] !in MethodTable ==> request == old(request)) &&
        (|w| >= 3 && w[0] in MethodTable ==>
          request.verb == MethodFor(w[0]) &&
          (TargetAccepted(w[1]) ==> request.target == PathOf(w[1]) && request.query == QueryOf(w[1], old(request).query)) &&
          (!TargetAccepted(w[1]) ==> request.target == old(request).target && request.query == old(request).query) &&
          request.httpVersion == if TargetAccepted(w[1]) && VersionMatches(w[2]) then w[2] else old(request).httpVersion)
      ensures fd == old(fd) && keepAlive == old(keepAlive) && isMissingData == old(isMissingData)
      ensures outOfRange == old(outOfRange) && headers == old(headers) && body == old(body)
    {
      var w := Words(line);
      if |w| < 3 {
        isValid := false;
        return;
      }
      var verb, target, version := w[0], w[1], w[2];
      var i := 0;
      while i < |MethodTable| && MethodTable[i] != verb
        invariant 0 <= i <= |MethodTable|
        invariant forall j :: 0 <= j < i ==> MethodTable[j] != verb
      {
        i := i + 1;
      }
      if i == 0 {
        request := request.(verb := Get);
      } else if i == 1 {
        request := request.(verb := Post);
      } else if i == 2 {
        request := request.(verb := Delete);
      } else {
        isValid := false;
        return;
      }
      var ok := IsTargetValid(target);
      if ok {
        ok := IsHttpValid(version);
      }
      if !ok {
        isValid := false;
      }
    }

    /** `areValidChars`. */
    static method AreValidChars(s: string) returns (ok: bool)
      ensures ok <==> CharsAllowed(s)
    {
      for i := 0 to |s|
        invariant forall j :: 0 <= j < i ==> !Forbidden(s[j])
      {
        if s[i] as int < 32 || s[i] as int >= 127 || s[i] == '<' || s[i] == '>' || s[i] == '"' || s[i] == '\\' {
          return false;
        }
      }
      return true;
    }

    /** `isTargetValid`: the checks, then the path and the query stored. */
    method IsTargetValid(target: string) returns (ok: bool)
      modifies this
      ensures ok <==> TargetAccepted(target)
      ensures ok ==> request == old(request).(target := PathOf(target), query := QueryOf(target, old(request).query))
      ensures !ok ==> request == old(request)
      ensures fd == old(fd) && keepAlive == old(keepAlive) && isValid == old(isValid)
      ensures isMissingData == old(isMissingData) && outOfRange == old(outOfRange)
      ensures headers == old(headers) && body == old(body)
    {
      if |target| == 1 && target != "/" {
        return false;
      }
      ok := AreValidChars(target);
      if !ok {
        return false;
      }
      var protocolEnd := Find(target, "://");
      if protocolEnd.Some? {
        var protocol := target[..protocolEnd.value];
        if protocol != "http" && protocol != "https" {
          return false;
        }
      }
      var queryStart := FindChar(target, '?');
      if queryStart.Some? {
        request := request.(target := target[..queryStart.value], query := Some(target[queryStart.value + 1..]));
      } else {
        request := request.(target := target);
      }
      return true;
    }

    /** `isHttpValid`: the version stored when it matches. */
    method IsHttpValid(version: string) returns (ok: bool)
      modifies this
      ensures ok <==> VersionMatches(version)
      ensures request == if ok then old(request).(httpVersion := version) else old(request)
      ensures fd == old(fd) && keepAlive == old(keepAlive) && isValid == old(isValid)
      ensures isMissingData == old(isMissingData) && outOfRange == old(outOfRange)
      ensures headers == old(headers) && body == old(body)
    {
      if !VersionMatches(version) {
        return false;
      }
      request := request.(httpVersion := version);
      return true;
    }

    /** `parseHeaders`: the header lines collected, then the header rules
        and keep-alive checked. No headers, a missing or empty `host`, and
        a unique name with several values make the request invalid; the
        first and the last of these end the checks before keep-alive is
        looked at. */
    method ParseHeaders(st0: Stream) returns (st: Stream)
      modifies this
      ensures outOfRange <==> old(outOfRange) || Collect(old(headers), Lines(st0)).None?
      ensures !outOfRange ==>
        Collect(old(headers), Lines(st0)) == Some(headers) &&
        Lines(st) == Lines(st0)[Consumed(Lines(st0))..] &&
        isValid == (old(isValid) && HeadersAccepted(headers)) &&
        keepAlive == (old(keepAlive) || (headers != map[] && NoRepeatedUnique(headers) && AsksKeepAlive(headers)))
      ensures fd == old(fd) && isMissingData == old(isMissingData)
      ensures request == old(request) && body == old(body)
    {
      var t, threw;
      st, t, threw := CollectHeaders(st0, headers);
      if threw {
        outOfRange := true;
        return;
      }
      headers := t;
      if headers == map[] {
        isValid := false;
        return;
      }
      if "host" !in headers || headers["host"] == [] {
        isValid := false;
      }
      var repeated := HasRepeatedUnique(headers);
      if repeated {
        isValid := false;
        return;
      }
      if "connection" in headers {
        var found := HasKeepAlive(headers["connection"]);
        if found {
          keepAlive := true;
        }
      }
    }
  }

  /** The loop of `parseHeaders`, stopping when `std::getline` fails as
      well as at the first line without `':'`. */
  method CollectHeaders(st0: Stream, t0: Table) returns (st: Stream, t: Table, threw: bool)
    ensures threw <==> Collect(t0, Lines(st0)).None?
    ensures !threw ==> Collect(t0, Lines(st0)) == Some(t) && Lines(st) == Lines(st0)[Consumed(Lines(st0))..]
  {
    ghost var ls := Lines(st0);
    ghost var n := 0;
    st, t := st0, t0;
    var line := [];
    while true
      invariant n <= |ls| && Lines(st) == ls[n..]
      invariant Collect(t, Lines(st)) == Collect(t0, ls)
      invariant Consumed(ls) == n + Consumed(Lines(st))
      decreases |Lines(st)|
    {
      var r := GetLine(st, line);
      if !r.ok {
        return r.st, t, false;
      }
      ghost var here := Lines(st);
      st, line := r.st, r.line;
      var point := FindChar(line, ':');
      if point.None? {
        return st, t, false;
      }
      if point.value + 2 > |line| {
        return st, t, true;
      }
      var key := Lower(line[..point.value]);
      var value := line[point.value + 2..];
      if FindChar(value, ',').None? {
        t := Add(t, key, [value]);
      } else {
        t := Add(t, key, Pieces(value, ','));
      }
      assert here[1..] == ls[n + 1..];
      n := n + 1;
    }
  }

  /** The loop over the table: whether a unique name has several values. */
  method HasRepeatedUnique(t: Table) returns (found: bool)
    ensures found <==> !NoRepeatedUnique(t)
  {
    var names := t.Keys;
    while names != {}
      invariant names <= t.Keys
      invariant forall k :: k in t && k !in names && IsUniqueHeader(k) ==> |t[k]| <= 1
      decreases names
    {
      var k :| k in names;
      if |t[k]| > 1 && IsUniqueHeader(k) {
        return true;
      }
      names := names - {k};
    }
    return false;
  }

  /** The loop over the `connection` values. */
  method HasKeepAlive(values: seq<string>) returns (found: bool)
    ensures found <==> KeepAliveValue in values
  {
    for i := 0 to |values|
      invariant forall j :: 0 <= j < i ==> values[j] != KeepAliveValue
    {
      if values[i] == KeepAliveValue {
        return true;
      }
    }
    return false;
  }

  /** The body loop: every remaining line, without its `'\n'`, in order. */
  method ReadRest(st0: Stream) returns (text: string)
    ensures text == Join(Lines(st0), "")
  {
    var st := st0;
    var line := [];
    text := [];
    while true
      invariant text + Join(Lines(st), "") == Join(Lines(st0), "")
      decreases |Lines(st)|
    {
      var r := GetLine(st, line);
      if !r.ok {
        return;
      }
      JoinStep(text, Lines(st), r.line);
      text := text + r.line;
      st, line := r.st, r.line;
    }
  }

  lemma JoinStep(text: string, ls: seq<string>, x: string)
    requires ls != [] && x == ls[0]
    ensures (text + x) + Join(ls[1..], "") == text + Join(ls, "")
  {
  }

  // ---------------------------------------------------------------- the body

  /** The text with every `c` removed. */
  function Without(s: string, c: char): (r: string)
    ensures NoChar(r, c)
    decreases |s|
  {
    if s == [] then []
    else
      var r := (if s[0] == c then [] else [s[0]]) + Without(s[1..], c);
      assert forall i :: 1 <= i < |r| && s[0] != c ==> r[i] == Without(s[1..], c)[i - 1];
      r
  }

  lemma {:induction false} WithoutConcat(a: string, b: string, c: char)
    ensures Without(a + b, c) == Without(a, c) + Without(b, c)
    decreases |a|
  {
    if a != [] {
      var h: string := if a[0] == c then [] else [a[0]];
      assert (a + b)[0] == a[0] && (a + b)[1..] == a[1..] + b;
      WithoutConcat(a[1..], b, c);
      assert Without(a + b, c) == h + Without(a[1..] + b, c);
      assert Without(a, c) == h + Without(a[1..], c);
    } else {
      assert a + b == b;
    }
  }

  lemma {:induction false} WithoutAbsent(a: string, c: char)
    requires NoChar(a, c)
    ensures Without(a, c) == a
    decreases |a|
  {
    if a != [] {
      WithoutAbsent(a[1..], c);
    }
  }

  /** The body is the remaining text with its line breaks removed. */
  lemma {:induction false} BodyDropsLineBreaks(s: string)
    ensures Join(Pieces(s, '\n'), "") == Without(s, '\n')
    decreases |s|
  {
    if s != [] {
      FindCharPrefix(s, '\n');
      match FindChar(s, '\n')
      case None =>
        WithoutAbsent(s, '\n');
      case Some(i) =>
        BodyDropsLineBreaks(s[i + 1..]);
        JoinedAt(s, i);
        WithoutAt(s, i);
    }
  }

  /** Joined without separator, the lines are the first line then the
      rest's lines. */
  lemma JoinedAt(s: string, i: nat)
    requires FindChar(s, '\n') == Some(i)
    ensures Join(Pieces(s, '\n'), "") == s[..i] + Join(Pieces(s[i + 1..], '\n'), "")
  {
    var rest := s[i + 1..];
    assert Pieces(s, '\n') == [s[..i]] + Pieces(rest, '\n');
    if rest != [] {
      PiecesNonEmpty(rest, '\n');
      JoinCons(s[..i], Pieces(rest, '\n'), "");
    }
  }

  /** Removing the breaks drops the first one and keeps the text before it. */
  lemma WithoutAt(s: string, i: nat)
    requires i < |s| && s[i] == '\n' && NoChar(s[..i], '\n')
    ensures Without(s, '\n') == s[..i] + Without(s[i + 1..], '\n')
  {
    var head, rest := s[..i], s[i + 1..];
    assert s == head + ("\n" + rest);
    WithoutConcat(head, "\n" + rest, '\n');
    WithoutAbsent(head, '\n');
    assert Without("\n" + rest, '\n') == Without(rest, '\n') by {
      assert ("\n" + rest)[1..] == rest;
    }
  }
}
