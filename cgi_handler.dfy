/** The server side of CGI in `srcs/CgiHandler.cpp`: the script environment,
    its `envp` form, and the parser that reads a script's output back.
    Server-side strings are byte strings: one `char` per byte. */
module CgiHandler {
  import opened Text
  import opened HttpTypes
  import opened CgiFrame

  /** A parsed script response. The header fields are kept as the text the
      script wrote; `contentLength` is the decimal text of a length. */
  datatype CgiResponse = CgiResponse(status: string, contentType: string, contentLength: string, body: string)

  const DefaultStatus: string := "200 OK"
  const DefaultContentType: string := "text/html"

  // ---------------------------------------------------------------- output parser

  /** Where the body starts: the first `"\r\n\r\n"`, else the first `"\n\n"`,
      as (position of the separator, separator length). */
  function Separator(raw: string): (r: Option<(nat, nat)>)
    ensures r.None? <==> !Contains(raw, Blank) && !Contains(raw, "\n\n")
    ensures r.Some? ==> r.value.0 + r.value.1 <= |raw|
  {
    match Find(raw, Blank)
    case Some(p) => Some((p, 4))
    case None =>
      match Find(raw, "\n\n")
      case Some(p) => Some((p, 2))
      case None => None
  }

  /** The header value with `' '` trimmed from both ends, kept as it is when
      it holds nothing but spaces. */
  function TrimValue(v: string): string {
    if AllIn(v, {' '}) then v else Strip(v, {' '})
  }

  function DropCR(line: string): string {
    if line != [] && line[|line| - 1] == '\r' then line[..|line| - 1] else line
  }

  /** The effect of one examined header line. */
  function ApplyLine(resp: CgiResponse, line: string): CgiResponse {
    var l := DropCR(line);
    match FindChar(l, ':')
    case None => resp
    case Some(c) =>
      var key, value := l[..c], TrimValue(l[c + 1..]);
      if key == "Status" then resp.(status := value)
      else if key == "Content-Type" then resp.(contentType := value)
      else if key == "Content-Length" then resp.(contentLength := value)
      else resp
  }

  /** The lines of a header block that the parser examines from `start` on:
      each piece that a `'\n'` terminates. Whatever follows the last `'\n'`
      is not among them. */
  function ExaminedFrom(h: string, start: nat): seq<string>
    decreases |h| - start
  {
    match FindCharFrom(h, '\n', start)
    case None => []
    case Some(e) => [h[start..e]] + ExaminedFrom(h, e + 1)
  }

  function ExaminedLines(h: string): seq<string> {
    ExaminedFrom(h, 0)
  }

  function ApplyLines(resp: CgiResponse, lines: seq<string>): CgiResponse
    decreases |lines|
  {
    if lines == [] then resp else ApplyLines(ApplyLine(resp, lines[0]), lines[1..])
  }

  /** `contentLength` is replaced by the body length only when it is `"0"`
      and the body is not empty. */
  function FixLength(resp: CgiResponse): CgiResponse {
    if resp.contentLength == "0" && resp.body != [] then resp.(contentLength := NatToString(|resp.body|))
    else resp
  }

  /** What `parseCgiOutput` returns for `raw`. */
  function Parse(raw: string): CgiResponse {
    match Separator(raw)
    case None => CgiResponse(DefaultStatus, DefaultContentType, NatToString(|raw|), raw)
    case Some((p, n)) =>
      var init := CgiResponse(DefaultStatus, DefaultContentType, "0", raw[p + n..]);
      FixLength(ApplyLines(init, ExaminedLines(raw[..p])))
  }

  lemma ApplyLinesCons(resp: CgiResponse, line: string, rest: seq<string>)
    ensures ApplyLines(resp, [line] + rest) == ApplyLines(ApplyLine(resp, line), rest)
  {
    assert ([line] + rest)[1..] == rest;
  }

  /** `parseCgiOutput`: separate headers from body, read the header lines one
      by one, fix up the length. */
  method ParseCgiOutput(raw: string) returns (response: CgiResponse)
    ensures response == Parse(raw)
  {
    response := CgiResponse(DefaultStatus, DefaultContentType, "0", "");
    var bodyPos := Find(raw, Blank);
    var headerEndLen := 4;
    if bodyPos.None? {
      bodyPos := Find(raw, "\n\n");
      headerEndLen := 2;
    }
    if bodyPos.None? {
      response := response.(body := raw, contentLength := NatToString(|raw|));
      return;
    }
    var p := bodyPos.value;
    ParseSome(raw, p, headerEndLen);
    var headerSection := raw[..p];
    response := response.(body := raw[p + headerEndLen..]);
    response := ReadHeaderLines(headerSection, response);
    if response.contentLength == "0" && response.body != [] {
      response := response.(contentLength := NatToString(|response.body|));
    }
  }

  /** The header loop of `parseCgiOutput`: every `'\n'`-terminated line of
      the header section, in order, with one trailing `'\r'` dropped. */
  method ReadHeaderLines(headerSection: string, init: CgiResponse) returns (response: CgiResponse)
    ensures response == ApplyLines(init, ExaminedLines(headerSection))
  {
    response := init;
    var start := 0;
    var end := FindCharFrom(headerSection, '\n', start);
    while end.Some?
      invariant start <= |headerSection| && end == FindCharFrom(headerSection, '\n', start)
      invariant ApplyLines(response, ExaminedFrom(headerSection, start)) == ApplyLines(init, ExaminedLines(headerSection))
      decreases |headerSection| - start
    {
      var line := headerSection[start..end.value];
      ReadStep(headerSection, start, end.value, response);
      response := ApplyLine(response, line);
      start := end.value + 1;
      end := FindCharFrom(headerSection, '\n', start);
    }
  }

  /** One turn of the header loop. */
  lemma ReadStep(h: string, start: nat, e: nat, resp: CgiResponse)
    requires FindCharFrom(h, '\n', start) == Some(e)
    ensures start <= e < |h|
    ensures ApplyLines(resp, ExaminedFrom(h, start)) == ApplyLines(ApplyLine(resp, h[start..e]), ExaminedFrom(h, e + 1))
  {
    ApplyLinesCons(resp, h[start..e], ExaminedFrom(h, e + 1));
  }

  lemma ParseSome(raw: string, p: nat, n: nat)
    requires (Find(raw, Blank) == Some(p) && n == 4) || (Find(raw, Blank).None? && Find(raw, "\n\n") == Some(p) && n == 2)
    ensures p + n <= |raw|
    ensures Parse(raw) == FixLength(ApplyLines(CgiResponse(DefaultStatus, DefaultContentType, "0", raw[p + n..]), ExaminedLines(raw[..p])))
  {
  }

  /** Separator and body round trip: after a header block that holds no
      `"\r\n\r\n"` and does not end in CRLF, the body is exactly what follows
      the appended separator. */
  lemma BodyRoundTrip(h: string, b: string)
    requires !Contains(h, Blank) && !EndsWithCrlf(h)
    ensures Parse(h + Blank + b).body == b
  {
    FirstBlank(h, b);
    var raw := h + Blank + b;
    assert raw[|h| + 4..] == b;
    ParseSome(raw, |h|, 4);
    ApplyLinesKeepsBody(CgiResponse(DefaultStatus, DefaultContentType, "0", b), ExaminedLines(raw[..|h|]));
  }

  lemma {:induction false} ApplyLinesKeepsBody(resp: CgiResponse, lines: seq<string>)
    ensures ApplyLines(resp, lines).body == resp.body
    decreases |lines|
  {
    if lines != [] {
      ApplyLinesKeepsBody(ApplyLine(resp, lines[0]), lines[1..]);
    }
  }

  /** No separator: the whole output is the body, the length is its decimal
      length, and status and type keep their defaults. */
  lemma NoSeparator(raw: string)
    requires !Contains(raw, Blank) && !Contains(raw, "\n\n")
    ensures Parse(raw).body == raw
    ensures DecimalValue(Parse(raw).contentLength) == |raw|
    ensures Parse(raw).status == "200 OK" && Parse(raw).contentType == "text/html"
  {
  }

  /** Reading after a prefix reads the rest. */
  lemma {:induction false} ExaminedShift(p: string, s: string, i: nat)
    requires i <= |s|
    ensures ExaminedFrom(p + s, |p| + i) == ExaminedFrom(s, i)
    decreases |s| - i
  {
    FindCharShift(p, s, '\n', i);
    match FindCharFrom(s, '\n', i)
    case None =>
    case Some(e) =>
      var next := e + 1;
      assert (p + s)[|p| + i..|p| + e] == s[i..e];
      ExaminedShift(p, s, next);
      assert ExaminedFrom(p + s, |p| + i) == [s[i..e]] + ExaminedFrom(p + s, |p| + next);
  }

  /** Last header line ignored: of a header block made of lines joined by
      `'\n'`, every line but the last is examined, in order. */
  lemma {:induction false} LastLineIgnored(lines: seq<string>)
    requires |lines| > 0
    requires forall i :: 0 <= i < |lines| ==> NoChar(lines[i], '\n')
    ensures ExaminedLines(Join(lines, "\n")) == lines[..|lines| - 1]
    decreases |lines|
  {
    var h := Join(lines, "\n");
    if |lines| == 1 {
      FindCharAbsent(lines[0], '\n');
    } else {
      var l, rest := lines[0], Join(lines[1..], "\n");
      assert h == l + ['\n'] + rest;
      FindCharAfter(l, '\n', rest);
      assert h[..|l|] == l;
      ExaminedShift(l + ['\n'], rest, 0);
      LastLineIgnored(lines[1..]);
      assert lines[..|lines| - 1] == [l] + lines[1..][..|lines[1..]| - 1];
    }
  }

  /** A line without `':'` changes nothing. */
  lemma LineWithoutColon(resp: CgiResponse, line: string)
    requires NoChar(line, ':')
    ensures ApplyLine(resp, line) == resp
  {
    var l := DropCR(line);
    assert forall i :: 0 <= i < |l| ==> l[i] == line[i];
    FindCharAbsent(l, ':');
  }

  /** The name part of a header line: the text before its first `':'`. */
  function LineKey(line: string): Option<string> {
    var l := DropCR(line);
    match FindChar(l, ':')
    case None => None
    case Some(c) => Some(l[..c])
  }

  /** A later line with the same key overwrites what an earlier one stored. */
  lemma LaterLineWins(resp: CgiResponse, l1: string, l2: string)
    requires LineKey(l1).Some? && LineKey(l1) == LineKey(l2)
    ensures ApplyLine(ApplyLine(resp, l1), l2) == ApplyLine(resp, l2)
  {
  }

  /** The first `':'` of `key + ":" + rest` ends the key. */
  lemma ColonAfterKey(key: string, rest: string)
    requires NoChar(key, ':')
    ensures FindChar(key + ":" + rest, ':') == Some(|key|)
    ensures (key + ":" + rest)[..|key|] == key && (key + ":" + rest)[|key| + 1..] == rest
  {
    FindCharAfter(key, ':', rest);
    assert key + ":" + rest == key + [':'] + rest;
  }

  /** Trimming takes back the spaces put around a value. */
  lemma TrimPadded(pre: string, value: string, post: string)
    requires AllIn(pre, {' '}) && AllIn(post, {' '})
    requires |value| > 0 && value[0] != ' ' && value[|value| - 1] != ' '
    ensures TrimValue(pre + value + post) == value
  {
    var v := pre + value + post;
    assert v[|pre|] == value[0];
    assert v[..|pre|] == pre && v[|pre| + |value|..] == post;
    assert v[|pre|..|pre| + |value|] == value;
    StripIs(v, {' '}, |pre|, |pre| + |value|);
  }

  /** Header key/value extraction: a line that reads `key ":" value`, once
      one trailing `'\r'` is dropped, with the key before the first `':'`
      and the value padded by spaces only, stores exactly the unpadded
      value under one of the three recognised keys, and changes nothing
      under any other key. */
  lemma HeaderLineValue(resp: CgiResponse, line: string, key: string, pre: string, value: string, post: string)
    requires DropCR(line) == key + ":" + (pre + value + post)
    requires NoChar(key, ':') && AllIn(pre, {' '}) && AllIn(post, {' '})
    requires |value| > 0 && value[0] != ' ' && value[|value| - 1] != ' '
    ensures var r := ApplyLine(resp, line);
      (key == "Status" ==> r == resp.(status := value)) &&
      (key == "Content-Type" ==> r == resp.(contentType := value)) &&
      (key == "Content-Length" ==> r == resp.(contentLength := value)) &&
      (key != "Status" && key != "Content-Type" && key != "Content-Length" ==> r == resp)
  {
    ColonAfterKey(key, pre + value + post);
    TrimPadded(pre, value, post);
  }

  /** What the parser makes of a well-framed script response: the body comes
      back exactly, and so do the status and the content type, but the
      `Content-Length` line, the last of the block, is never read; the length
      is the body length when the body is not empty, and `"0"` otherwise. */
  lemma ParseFramed(status: string, contentType: string, length: string, body: string)
    requires PlainValue(status) && PlainValue(contentType) && PlainValue(length)
    ensures Parse(Framed(status, contentType, length, body)) ==
      CgiResponse(status, contentType, if body == [] then "0" else NatToString(|body|), body)
  {
    var l1, l2, l3 := "Status: " + status + "\r", "Content-Type: " + contentType + "\r", "Content-Length: " + length;
    HeaderBlockCrNotDoubled(status, contentType, length);
    CrNotDoubledSafe(HeaderBlock(status, contentType, length));
    FramedLines(status, contentType, length);
    ParseThreeLines(HeaderBlock(status, contentType, length), body, l1, l2, l3);
    FramedLineValues(CgiResponse(DefaultStatus, DefaultContentType, "0", body), status, contentType);
  }

  /** A block of three lines is read up to its third line. */
  lemma ParseThreeLines(h: string, body: string, l1: string, l2: string, l3: string)
    requires h == Join([l1, l2, l3], "\n") && NoChar(l1, '\n') && NoChar(l2, '\n') && NoChar(l3, '\n')
    requires !Contains(h, Blank) && !EndsWithCrlf(h)
    ensures Parse(h + Blank + body) == FixLength(ApplyLines(CgiResponse(DefaultStatus, DefaultContentType, "0", body), [l1, l2]))
  {
    var raw := h + Blank + body;
    FirstBlank(h, body);
    ParseSome(raw, |h|, 4);
    assert raw[..|h|] == h && raw[|h| + 4..] == body;
    LastLineIgnored([l1, l2, l3]);
    assert [l1, l2, l3][..2] == [l1, l2];
  }

  /** A block of two lines is read up to its second line. */
  lemma ParseTwoLines(h: string, body: string, l1: string, l2: string)
    requires h == Join([l1, l2], "\n") && NoChar(l1, '\n') && NoChar(l2, '\n')
    requires !Contains(h, Blank) && !EndsWithCrlf(h)
    ensures Parse(h + Blank + body) == FixLength(ApplyLines(CgiResponse(DefaultStatus, DefaultContentType, "0", body), [l1]))
  {
    var raw := h + Blank + body;
    FirstBlank(h, body);
    ParseSome(raw, |h|, 4);
    assert raw[..|h|] == h && raw[|h| + 4..] == body;
    LastLineIgnored([l1, l2]);
    assert [l1, l2][..1] == [l1];
  }

  /** A block of a status line and a type line: the status is read, the
      type line is the last one and is not. */
  lemma ParseStatusType(status: string, contentType: string, body: string)
    requires PlainValue(status) && PlainValue(contentType)
    ensures var r := Parse(StatusTypeBlock(status, contentType) + Blank + body);
      r.status == status && r.contentType == DefaultContentType && r.body == body
  {
    var l1, l2 := "Status: " + status + "\r", "Content-Type: " + contentType;
    var h := StatusTypeBlock(status, contentType);
    StatusTypeLines(status, contentType);
    CrNotDoubledSafe(h);
    ParseTwoLines(h, body, l1, l2);
    StatusLineValue(CgiResponse(DefaultStatus, DefaultContentType, "0", body), status);
  }

  /** The status-and-type block, line by line. */
  lemma StatusTypeLines(status: string, contentType: string)
    requires SingleLine(status) && SingleLine(contentType)
    ensures var l1, l2 := "Status: " + status + "\r", "Content-Type: " + contentType;
      StatusTypeBlock(status, contentType) == Join([l1, l2], "\n") &&
      NoChar(l1, '\n') && NoChar(l2, '\n') && CrNotDoubled(StatusTypeBlock(status, contentType))
  {
    var l1, l2 := "Status: " + status + "\r", "Content-Type: " + contentType;
    CrlfSplit("Status: " + status, l2);
    SingleLineConcat("Status: ", status);
    SingleLineConcat("Content-Type: ", contentType);
    NoCharConcat("Status: " + status, "\r", '\n');
    assert [l1, l2][1..] == [l2];
    assert Join([l1, l2], "\n") == l1 + "\n" + l2;
    CrNotDoubledLine("Status: " + status, l2);
  }

  /** A status line alone sets the status. */
  lemma StatusLineValue(init: CgiResponse, status: string)
    requires PlainValue(status)
    ensures ApplyLines(init, ["Status: " + status + "\r"]) == init.(status := status)
  {
    var l1 := "Status: " + status + "\r";
    assert DropCR(l1) == "Status" + ":" + (" " + status + "");
    assert NoChar("Status", ':') && AllIn(" ", {' '}) && AllIn("", {' '});
    HeaderLineValue(init, l1, "Status", " ", status, "");
    ApplyLinesCons(init, l1, []);
    assert [l1] == [l1] + [];
  }

  /** The scripts' header block, line by line. */
  lemma FramedLines(status: string, contentType: string, length: string)
    requires SingleLine(status) && SingleLine(contentType) && SingleLine(length)
    ensures var l1, l2, l3 := "Status: " + status + "\r", "Content-Type: " + contentType + "\r", "Content-Length: " + length;
      HeaderBlock(status, contentType, length) == Join([l1, l2, l3], "\n") &&
      NoChar(l1, '\n') && NoChar(l2, '\n') && NoChar(l3, '\n')
  {
    var l1, l2, l3 := "Status: " + status + "\r", "Content-Type: " + contentType + "\r", "Content-Length: " + length;
    assert [l1, l2, l3][1..] == [l2, l3];
    assert [l2, l3][1..] == [l3];
    assert Join([l2, l3], "\n") == l2 + "\n" + l3;
    assert Join([l1, l2, l3], "\n") == l1 + "\n" + (l2 + "\n" + l3);
    SingleLineConcat("Status: ", status);
    SingleLineConcat("Content-Type: ", contentType);
    SingleLineConcat("Content-Length: ", length);
    NoCharConcat("Status: " + status, "\r", '\n');
    NoCharConcat("Content-Type: " + contentType, "\r", '\n');
  }

  /** The first two lines of the scripts' block set the status and the type. */
  lemma FramedLineValues(init: CgiResponse, status: string, contentType: string)
    requires PlainValue(status) && PlainValue(contentType)
    ensures ApplyLines(init, ["Status: " + status + "\r", "Content-Type: " + contentType + "\r"]) ==
      init.(status := status, contentType := contentType)
  {
    var l1, l2 := "Status: " + status + "\r", "Content-Type: " + contentType + "\r";
    assert DropCR(l1) == "Status" + ":" + (" " + status + "");
    assert DropCR(l2) == "Content-Type" + ":" + (" " + contentType + "");
    assert NoChar("Status", ':') && NoChar("Content-Type", ':');
    assert AllIn(" ", {' '}) && AllIn("", {' '});
    HeaderLineValue(init, l1, "Status", " ", status, "");
    HeaderLineValue(init.(status := status), l2, "Content-Type", " ", contentType, "");
    ApplyLinesCons(init, l1, [l2]);
    ApplyLinesCons(ApplyLine(init, l1), l2, []);
    assert [l1, l2] == [l1] + [l2] && [l2] == [l2] + [];
  }

  /** A response written with a decimal length: the parser gives back its
      status, its type and its body. */
  lemma FramedReadBack(status: string, contentType: string, length: string, body: string)
    requires PlainValue(status) && PlainValue(contentType) && length == NatToString(|body|)
    ensures Framed(status, contentType, length, body) != []
    ensures var r := Parse(Framed(status, contentType, length, body));
      r.status == status && r.contentType == contentType && r.body == body
  {
    NatToStringPlain(|body|);
    ParseFramed(status, contentType, length, body);
  }

  /** The length fix-up: a `"0"` length over a non-empty body becomes the
      body length; any other length, right or wrong, is kept, and so is
      everything else. */
  lemma FixLengthCases(r: CgiResponse)
    ensures var f := FixLength(r);
      f.status == r.status && f.contentType == r.contentType && f.body == r.body
    ensures r.contentLength == "0" && r.body != [] ==>
      AllDigits(FixLength(r).contentLength) && DecimalValue(FixLength(r).contentLength) == |r.body|
    ensures r.contentLength != "0" || r.body == [] ==> FixLength(r) == r
  {
  }

  /** A `Content-Length` line that is not the last header line is read, and
      its value is kept whatever the body's true length. */
  lemma LengthLineKept(length: string, body: string)
    requires PlainValue(length) && length != "0"
    ensures Parse("Content-Length: " + length + CRLF + "Status: 200 OK" + Blank + body) ==
      CgiResponse(DefaultStatus, DefaultContentType, length, body)
  {
    var l1, l2 := "Content-Length: " + length + "\r", "Status: 200 OK";
    var h := "Content-Length: " + length + CRLF + l2;
    LengthFirstLines(length);
    CrNotDoubledSafe(h);
    ParseTwoLines(h, body, l1, l2);
    LengthLineValue(CgiResponse(DefaultStatus, DefaultContentType, "0", body), length);
  }

  /** The length-then-status block, line by line. */
  lemma LengthFirstLines(length: string)
    requires SingleLine(length)
    ensures var l1, l2 := "Content-Length: " + length + "\r", "Status: 200 OK";
      var h := "Content-Length: " + length + CRLF + l2;
      h == Join([l1, l2], "\n") && NoChar(l1, '\n') && NoChar(l2, '\n') && CrNotDoubled(h)
  {
    var x, l2 := "Content-Length: " + length, "Status: 200 OK";
    LiteralsPlain();
    SingleLineConcat("Content-Length: ", length);
    SingleLineConcat("Status: ", "200 OK");
    CrNotDoubledLine(x, l2);
    CrlfSplit(x, l2);
    NoCharConcat(x, "\r", '\n');
    var l1 := x + "\r";
    assert [l1, l2][1..] == [l2];
    assert Join([l1, l2], "\n") == l1 + "\n" + l2;
  }

  /** A length line alone sets the length. */
  lemma LengthLineValue(init: CgiResponse, length: string)
    requires PlainValue(length)
    ensures ApplyLines(init, ["Content-Length: " + length + "\r"]) == init.(contentLength := length)
  {
    var l1 := "Content-Length: " + length + "\r";
    assert DropCR(l1) == "Content-Length" + ":" + (" " + length + "");
    assert NoChar("Content-Length", ':') && AllIn(" ", {' '}) && AllIn("", {' '});
    HeaderLineValue(init, l1, "Content-Length", " ", length, "");
    ApplyLinesCons(init, l1, []);
    assert [l1] == [l1] + [];
  }

  /** A length of 5 announced over a two-byte body is passed on as 5. */
  lemma WrongLengthKept()
    ensures var r := Parse("Content-Length: 5" + CRLF + "Status: 200 OK" + Blank + "ab");
      r.contentLength == "5" && |r.body| == 2
  {
    assert PlainValue("5");
    assert "Content-Length: " + "5" == "Content-Length: 5";
    LengthLineKept("5", "ab");
  }

  /** A block made of one status line: the parser never reads it. */
  lemma StatusOnlyBlock(v: string)
    requires PlainValue(v)
    ensures Parse("Status: " + v + Blank).status == DefaultStatus
    ensures ParseEveryLine("Status: " + v + Blank).status == v
  {
    var h := "Status: " + v;
    StatusBlockFramed(v);
    FindCharAbsent(h, '\n');
    EveryLineExamined([h]);
    StatusLineRead(v);
  }

  /** The one-line block splits at the separator after the status line,
      with nothing after it. */
  lemma StatusBlockFramed(v: string)
    requires PlainValue(v)
    ensures var h := "Status: " + v;
      var init := CgiResponse(DefaultStatus, DefaultContentType, "0", "");
      Parse(h + Blank) == FixLength(ApplyLines(init, ExaminedLines(h))) &&
      ParseEveryLine(h + Blank) == FixLength(ApplyLines(init, ExaminedLines(h + "\n"))) &&
      NoChar(h, '\n')
  {
    var h := "Status: " + v;
    SingleLineConcat("Status: ", v);
    CrNotDoubledSafe(h);
    FirstBlank(h, "");
    var raw := h + Blank + "";
    assert raw == h + Blank;
    assert raw[..|h|] == h && raw[|h| + 4..] == "";
    ParseSome(raw, |h|, 4);
  }

  /** The status line, when it is read, sets the status. */
  lemma StatusLineRead(v: string)
    requires PlainValue(v)
    ensures var init := CgiResponse(DefaultStatus, DefaultContentType, "0", "");
      FixLength(ApplyLines(init, ["Status: " + v])).status == v
  {
    var h := "Status: " + v;
    var init := CgiResponse(DefaultStatus, DefaultContentType, "0", "");
    assert DropCR(h) == "Status" + ":" + (" " + v + "");
    assert NoChar("Status", ':') && AllIn(" ", {' '}) && AllIn("", {' '});
    HeaderLineValue(init, h, "Status", " ", v, "");
    ApplyLinesCons(init, h, []);
    assert [h] == [h] + [];
  }

  /** The fallback text a failed script run leaves (`srcs/CGIHandler.cpp`)
      loses its status: its only header line is the last one, so the parser
      reports `"200 OK"`. */
  lemma FallbackStatusLost()
    ensures Parse("Status: 500 Internal Server Error" + Blank).status == "200 OK"
  {
    var v := "500 Internal Server Error";
    assert PlainValue(v);
    assert "Status: " + v == "Status: 500 Internal Server Error";
    StatusOnlyBlock(v);
  }

  /** The corrected parser keeps the fallback's status. */
  lemma FallbackStatusKept()
    ensures ParseEveryLine("Status: 500 Internal Server Error" + Blank).status == "500 Internal Server Error"
  {
    var v := "500 Internal Server Error";
    assert PlainValue(v);
    assert "Status: " + v == "Status: 500 Internal Server Error";
    StatusOnlyBlock(v);
  }

  /** The parser as evidently intended: the line just before the separator
      is a header line too, so every line of the header block is examined. */
  function ParseEveryLine(raw: string): CgiResponse {
    match Separator(raw)
    case None => CgiResponse(DefaultStatus, DefaultContentType, NatToString(|raw|), raw)
    case Some((p, n)) =>
      var init := CgiResponse(DefaultStatus, DefaultContentType, "0", raw[p + n..]);
      FixLength(ApplyLines(init, ExaminedLines(raw[..p] + "\n")))
  }

  /** With a line break added after the block, every line is examined. */
  lemma EveryLineExamined(lines: seq<string>)
    requires |lines| > 0
    requires forall i :: 0 <= i < |lines| ==> NoChar(lines[i], '\n')
    ensures ExaminedLines(Join(lines, "\n") + "\n") == lines
  {
    var ext := lines + [""];
    JoinSnoc(lines, "", "\n");
    assert Join(ext, "\n") == Join(lines, "\n") + "\n";
    forall i | 0 <= i < |ext| ensures NoChar(ext[i], '\n') {
      if i < |lines| {
        assert ext[i] == lines[i];
      }
    }
    LastLineIgnored(ext);
    assert ext[..|ext| - 1] == lines;
  }

  lemma ApplyThree(init: CgiResponse, l1: string, l2: string, l3: string)
    ensures ApplyLines(init, [l1, l2, l3]) == ApplyLine(ApplyLines(init, [l1, l2]), l3)
  {
    ApplyLinesCons(init, l1, [l2, l3]);
    ApplyLinesCons(ApplyLine(init, l1), l2, [l3]);
    ApplyLinesCons(init, l1, [l2]);
    ApplyLinesCons(ApplyLine(init, l1), l2, []);
    ApplyLinesCons(ApplyLine(ApplyLine(init, l1), l2), l3, []);
    assert [l1, l2, l3] == [l1] + [l2, l3] && [l2, l3] == [l2] + [l3];
    assert [l1, l2] == [l1] + [l2] && [l2] == [l2] + [] && [l3] == [l3] + [];
  }

  /** All three lines of the scripts' block set their field. */
  lemma FramedThreeValues(init: CgiResponse, status: string, contentType: string, length: string)
    requires PlainValue(status) && PlainValue(contentType) && PlainValue(length)
    ensures ApplyLines(init, ["Status: " + status + "\r", "Content-Type: " + contentType + "\r", "Content-Length: " + length]) ==
      init.(status := status, contentType := contentType, contentLength := length)
  {
    var l1, l2, l3 := "Status: " + status + "\r", "Content-Type: " + contentType + "\r", "Content-Length: " + length;
    var r2 := init.(status := status, contentType := contentType);
    FramedLineValues(init, status, contentType);
    ApplyThree(init, l1, l2, l3);
    assert DropCR(l3) == "Content-Length" + ":" + (" " + length + "");
    assert NoChar("Content-Length", ':') && AllIn(" ", {' '}) && AllIn("", {' '});
    HeaderLineValue(r2, l3, "Content-Length", " ", length, "");
  }

  /** The corrected parser reads a well-framed response back completely: the
      status, the type and the length as written, and the body. */
  lemma ParseEveryLineFramed(status: string, contentType: string, length: string, body: string)
    requires PlainValue(status) && PlainValue(contentType) && PlainValue(length)
    ensures ParseEveryLine(Framed(status, contentType, length, body)) ==
      FixLength(CgiResponse(status, contentType, length, body))
  {
    var l1, l2, l3 := "Status: " + status + "\r", "Content-Type: " + contentType + "\r", "Content-Length: " + length;
    var h := HeaderBlock(status, contentType, length);
    HeaderBlockCrNotDoubled(status, contentType, length);
    CrNotDoubledSafe(h);
    FramedLines(status, contentType, length);
    FirstBlank(h, body);
    var raw := h + Blank + body;
    assert raw[..|h|] == h && raw[|h| + 4..] == body;
    EveryLineExamined([l1, l2, l3]);
    FramedThreeValues(CgiResponse(DefaultStatus, DefaultContentType, "0", body), status, contentType, length);
  }

  /** A decimal length is a plain header value, and it is `"0"` only for 0. */
  lemma NatToStringPlain(n: nat)
    ensures PlainValue(NatToString(n))
    ensures NatToString(n) == "0" <==> n == 0
  {
    var r := NatToString(n);
    assert forall i :: 0 <= i < |r| ==> IsDigit(r[i]);
    assert DecimalValue("0") == 0;
    if n == 0 {
      assert DigitChar(0) == '0';
    }
  }

  /** In particular a response that states the body's length comes back
      exactly as it was written. */
  lemma ParseEveryLineRoundTrip(status: string, contentType: string, body: string)
    requires PlainValue(status) && PlainValue(contentType)
    ensures ParseEveryLine(Framed(status, contentType, NatToString(|body|), body)) ==
      CgiResponse(status, contentType, NatToString(|body|), body)
  {
    var n := NatToString(|body|);
    NatToStringPlain(|body|);
    ParseEveryLineFramed(status, contentType, n, body);
  }

  // ---------------------------------------------------------------- environment

  function MethodVar(m: Method): string {
    match m
    case Post => "POST"
    case Get => "GET"
    case _ => "UNKNOWN"
  }

  /** `HTTP_` followed by the header name upper-cased, `'-'` written as `'_'`. */
  function HttpVarName(name: string): string {
    "HTTP_" + seq(|name|, i requires 0 <= i < |name| => if name[i] == '-' then '_' else UpperChar(name[i]))
  }

  /** The `HTTP_` variables the header loop sets, headers visited in order. */
  function HttpVars(headers: seq<(string, seq<string>)>): map<string, string>
    decreases |headers|
  {
    if headers == [] then map[]
    else
      var m := HttpVars(headers[..|headers| - 1]);
      var h := headers[|headers| - 1];
      if h.1 == [] then m else m[HttpVarName(h.0) := h.1[0]]
  }

  /** Header `i` has a value and its variable name is `k`. */
  predicate GivesVar(headers: seq<(string, seq<string>)>, i: int, k: string) {
    0 <= i < |headers| && headers[i].1 != [] && HttpVarName(headers[i].0) == k
  }

  /** Header `i` gives a variable no later header gives again. */
  predicate LastForName(headers: seq<(string, seq<string>)>, i: int) {
    0 <= i < |headers| && headers[i].1 != [] &&
    forall j :: i < j < |headers| && headers[j].1 != [] ==> HttpVarName(headers[j].0) != HttpVarName(headers[i].0)
  }

  /** Exactly the headers with at least one value give an `HTTP_` variable. */
  lemma {:induction false} HttpVarsKeys(headers: seq<(string, seq<string>)>)
    ensures forall k :: k in HttpVars(headers) <==> exists i :: GivesVar(headers, i, k)
    decreases |headers|
  {
    if headers != [] {
      var n := |headers| - 1;
      var init := headers[..n];
      var h := headers[n];
      HttpVarsKeys(init);
      forall k ensures k in HttpVars(headers) <==> exists i :: GivesVar(headers, i, k) {
        if k in HttpVars(headers) {
          if h.1 != [] && HttpVarName(h.0) == k {
            assert GivesVar(headers, n, k);
          } else {
            var i :| GivesVar(init, i, k);
            assert init[i] == headers[i];
            assert GivesVar(headers, i, k);
          }
        }
        if exists i :: GivesVar(headers, i, k) {
          var i :| GivesVar(headers, i, k);
          if i < n {
            assert init[i] == headers[i];
            assert GivesVar(init, i, k);
          }
        }
      }
    }
  }

  /** The variable holds the first value of the last header that gives it
      (the only one, unless two names differ just in case or in `'-'` against
      `'_'`). */
  lemma {:induction false} HttpVarsValues(headers: seq<(string, seq<string>)>)
    ensures forall i :: LastForName(headers, i) ==>
      HttpVarName(headers[i].0) in HttpVars(headers) &&
      HttpVars(headers)[HttpVarName(headers[i].0)] == headers[i].1[0]
    decreases |headers|
  {
    if headers != [] {
      var n := |headers| - 1;
      var init := headers[..n];
      HttpVarsValues(init);
      forall i | LastForName(headers, i)
        ensures HttpVarName(headers[i].0) in HttpVars(headers) &&
          HttpVars(headers)[HttpVarName(headers[i].0)] == headers[i].1[0]
      {
        if i < n {
          assert init[i] == headers[i];
          assert forall j :: i < j < n ==> init[j] == headers[j];
          assert LastForName(init, i);
        }
      }
    }
  }

  /** The names the handler sets besides the `HTTP_` ones. */
  const FixedNames: set<string> := {
    "REQUEST_METHOD", "QUERY_STRING", "CONTENT_LENGTH", "PATH_INFO", "SCRIPT_FILENAME",
    "GATEWAY_INTERFACE", "SCRIPT_NAME", "SERVER_PROTOCOL", "SERVER_SOFTWARE", "REDIRECT_STATUS",
    "CONTENT_TYPE", "SERVER_NAME", "SERVER_PORT" }

  lemma FixedNotHttp(name: string)
    ensures HttpVarName(name) !in FixedNames
  {
    assert HttpVarName(name)[0] == 'H';
    assert forall k :: k in FixedNames ==> k[0] != 'H';
  }

  function ContentTypeOf(req: RequestView): Option<string> {
    match HeaderValues(req.headers, "content-type")
    case Some(vs) => if vs != [] then Some(vs[0]) else None
    case None => None
  }

  /** The meta-variables `getEnv` sets before the header loop. */
  function FixedEnv(scriptPath: string, req: RequestView): map<string, string> {
    var env := RequestEnv(scriptPath, req);
    var env := match ContentTypeOf(req) case Some(ct) => env["CONTENT_TYPE" := ct] case None => env;
    var host := HostOf(req);
    match FindChar(host, ':')
    case Some(c) => env["SERVER_NAME" := host[..c]]["SERVER_PORT" := host[c + 1..]]
    case None => env["SERVER_NAME" := host]["SERVER_PORT" := "8080"]
  }

  /** The ten entries `getEnv` always sets first. */
  function RequestEnv(scriptPath: string, req: RequestView): map<string, string> {
    map[
      "REQUEST_METHOD" := MethodVar(req.verb),
      "QUERY_STRING" := if req.query.Some? then req.query.value else "",
      "CONTENT_LENGTH" := NatToString(|req.body|),
      "PATH_INFO" := req.target,
      "SCRIPT_FILENAME" := scriptPath,
      "GATEWAY_INTERFACE" := "CGI/1.1",
      "SCRIPT_NAME" := req.target,
      "SERVER_PROTOCOL" := req.httpVersion,
      "SERVER_SOFTWARE" := "Webserv/1.0",
      "REDIRECT_STATUS" := "200"]
  }

  /** Fixed environment entries: the request method as `POST`, `GET` or
      `UNKNOWN`, the query or `""`, the decimal body size, the target and
      the script path. */
  lemma RequestEnvEntries(scriptPath: string, req: RequestView)
    ensures var env := RequestEnv(scriptPath, req);
      env["REQUEST_METHOD"] in {"POST", "GET", "UNKNOWN"} &&
      (env["REQUEST_METHOD"] == "POST" <==> req.verb == Post) &&
      (env["REQUEST_METHOD"] == "GET" <==> req.verb == Get) &&
      env["QUERY_STRING"] == (if req.query.Some? then req.query.value else "") &&
      AllDigits(env["CONTENT_LENGTH"]) && DecimalValue(env["CONTENT_LENGTH"]) == |req.body| &&
      env["PATH_INFO"] == req.target && env["SCRIPT_NAME"] == req.target &&
      env["SCRIPT_FILENAME"] == scriptPath && env["SERVER_PROTOCOL"] == req.httpVersion
  {
  }

  /** `CONTENT_TYPE` is there exactly when a `content-type` header has a
      value, and holds its first value; the host is split at its first
      `':'` into `SERVER_NAME` and `SERVER_PORT`, the port being `"8080"`
      when the host names none. */
  lemma FixedEnvEntries(scriptPath: string, req: RequestView)
    ensures var env := FixedEnv(scriptPath, req);
      ("CONTENT_TYPE" in env <==> ContentTypeOf(req).Some?) &&
      (ContentTypeOf(req).Some? ==> env["CONTENT_TYPE"] == ContentTypeOf(req).value) &&
      (!NoChar(HostOf(req), ':') ==>
        NoChar(env["SERVER_NAME"], ':') && env["SERVER_NAME"] + ":" + env["SERVER_PORT"] == HostOf(req)) &&
      (NoChar(HostOf(req), ':') ==> env["SERVER_NAME"] == HostOf(req) && env["SERVER_PORT"] == "8080")
  {
    var host := HostOf(req);
    FindCharPrefix(host, ':');
    assert "CONTENT_TYPE" !in RequestEnv(scriptPath, req);
    match FindChar(host, ':')
    case Some(c) =>
      assert host == host[..c] + ":" + host[c + 1..];
    case None =>
  }

  /** The fixed entries `getEnv` keeps whatever the headers are. */
  lemma FixedEnvKeys(scriptPath: string, req: RequestView)
    ensures FixedEnv(scriptPath, req).Keys <= FixedNames
    ensures FixedNames - {"CONTENT_TYPE"} <= FixedEnv(scriptPath, req).Keys
  {
  }

  /** The ten request entries keep their values in the fixed environment. */
  lemma FixedEnvKeepsRequest(scriptPath: string, req: RequestView)
    ensures forall k :: k in RequestEnv(scriptPath, req) ==> FixedEnv(scriptPath, req)[k] == RequestEnv(scriptPath, req)[k]
  {
  }

  lemma HttpVarsStep(headers: seq<(string, seq<string>)>, i: nat)
    requires i < |headers|
    ensures HttpVars(headers[..i + 1]) ==
      if headers[i].1 == [] then HttpVars(headers[..i])
      else HttpVars(headers[..i])[HttpVarName(headers[i].0) := headers[i].1[0]]
  {
    assert headers[..i + 1][..i] == headers[..i];
  }

  lemma UnionUpdate(a: map<string, string>, b: map<string, string>, k: string, v: string)
    ensures a + b[k := v] == (a + b)[k := v]
  {
  }

  /** The name of a header's variable, built one character at a time. */
  method HttpKey(name: string) returns (envKey: string)
    ensures envKey == HttpVarName(name)
  {
    envKey := "HTTP_";
    var j := 0;
    while j < |name|
      invariant 0 <= j <= |name|
      invariant envKey == HttpVarName(name[..j])
    {
      envKey := envKey + [if name[j] == '-' then '_' else UpperChar(name[j])];
      j := j + 1;
    }
    assert name[..j] == name;
  }

  /** `getEnv`: the fixed meta-variables (RFC 3875, section 4.1) and one
      `HTTP_` variable per header with a value (section 4.1.18). */
  method GetEnv(scriptPath: string, req: RequestView) returns (env: map<string, string>)
    ensures env == FixedEnv(scriptPath, req) + HttpVars(req.headers)
  {
    env := RequestEnv(scriptPath, req);
    var ct := HeaderValues(req.headers, "content-type");
    if ct.Some? && ct.value != [] {
      env := env["CONTENT_TYPE" := ct.value[0]];
    }
    var host := HostOf(req);
    var colon := FindChar(host, ':');
    if colon.Some? {
      env := env["SERVER_NAME" := host[..colon.value]];
      env := env["SERVER_PORT" := host[colon.value + 1..]];
    } else {
      env := env["SERVER_NAME" := host];
      env := env["SERVER_PORT" := "8080"];
    }
    assert env == FixedEnv(scriptPath, req);
    ghost var fixed := env;
    var i := 0;
    while i < |req.headers|
      invariant 0 <= i <= |req.headers|
      invariant env == fixed + HttpVars(req.headers[..i])
    {
      var (name, values) := req.headers[i];
      HttpVarsStep(req.headers, i);
      if values != [] {
        var envKey := HttpKey(name);
        UnionUpdate(fixed, HttpVars(req.headers[..i]), envKey, values[0]);
        env := env[envKey := values[0]];
      }
      i := i + 1;
    }
    assert req.headers[..i] == req.headers;
  }

  /** The environment as a whole: the fixed entries, and the `HTTP_`
      variables, which never replace a fixed entry. */
  lemma GetEnvSplit(scriptPath: string, req: RequestView)
    ensures var env := FixedEnv(scriptPath, req) + HttpVars(req.headers);
      (forall k :: k in FixedEnv(scriptPath, req) ==> env[k] == FixedEnv(scriptPath, req)[k]) &&
      (forall k :: k in env && k !in FixedNames ==> k in HttpVars(req.headers))
  {
    FixedEnvEntries(scriptPath, req);
    HttpVarsKeys(req.headers);
    forall k | k in HttpVars(req.headers) ensures k !in FixedNames {
      var i :| GivesVar(req.headers, i, k);
      FixedNotHttp(req.headers[i].0);
    }
  }

  /** One `envp` entry. */
  function EnvEntry(key: string, value: string): string { key + "=" + value }

  /** The `envp` strings `mapToEnvp` builds, one per entry in the map's
      (ascending) key order. */
  function EnvLines(envMap: map<string, string>): (r: seq<string>)
    ensures |r| == |envMap|
  {
    var keys := SortedKeys(envMap.Keys);
    seq(|keys|, i requires 0 <= i < |keys| => EnvEntry(keys[i], envMap[keys[i]]))
  }

  /** A line `k=v` whose key holds no `=` splits back into `k` and `v` at
      its first `=`. */
  lemma EnvEntrySplit(k: string, v: string)
    requires NoChar(k, '=')
    ensures var l := EnvEntry(k, v);
      FindChar(l, '=') == Some(|k|) && l[..|k|] == k && l[|k| + 1..] == v
  {
    var l := EnvEntry(k, v);
    assert l == k + ['='] + v;
    FindCharAfter(k, '=', v);
    assert l[..|k|] == k;
    assert l[|k| + 1..] == v;
  }

  /** Every entry of the map appears as a line, and the lines follow the keys
      in ascending order. */
  lemma EnvLinesComplete(envMap: map<string, string>)
    ensures forall k :: k in envMap ==> EnvEntry(k, envMap[k]) in EnvLines(envMap)
    ensures StrictlyAscending(SortedKeys(envMap.Keys))
  {
    var keys := SortedKeys(envMap.Keys);
    var r := EnvLines(envMap);
    SortedKeysOrdered(envMap.Keys);
    forall k | k in envMap ensures EnvEntry(k, envMap[k]) in r {
      var i :| 0 <= i < |keys| && keys[i] == k;
      assert r[i] == EnvEntry(k, envMap[k]);
    }
  }

  /** When no key holds `=`, each line splits at its first `=` back into a key
      of the map and that key's value. */
  lemma EnvLinesSplit(envMap: map<string, string>)
    requires forall k :: k in envMap ==> NoChar(k, '=')
    ensures forall l :: l in EnvLines(envMap) ==>
      FindChar(l, '=').Some? && l[..FindChar(l, '=').value] in envMap &&
      envMap[l[..FindChar(l, '=').value]] == l[FindChar(l, '=').value + 1..]
  {
    var keys := SortedKeys(envMap.Keys);
    var r := EnvLines(envMap);
    forall l | l in r
      ensures FindChar(l, '=').Some? && l[..FindChar(l, '=').value] in envMap &&
        envMap[l[..FindChar(l, '=').value]] == l[FindChar(l, '=').value + 1..]
    {
      var i :| 0 <= i < |r| && r[i] == l;
      var k := keys[i];
      assert k in envMap;
      EnvEntrySplit(k, envMap[k]);
    }
  }

  /** `mapToEnvp`: the lines of `EnvLines`, then the terminating null
      (`None`). */
  method MapToEnvp(envMap: map<string, string>) returns (envp: array<Option<string>>)
    ensures fresh(envp)
    ensures envp.Length == |envMap| + 1 && envp[|envMap|] == None
    ensures forall i :: 0 <= i < |envMap| ==> envp[i] == Some(EnvLines(envMap)[i])
  {
    var keys := SortedKeys(envMap.Keys);
    ghost var lines := EnvLines(envMap);
    envp := new Option<string>[|envMap| + 1](_ => None);
    var i := 0;
    while i < |keys|
      invariant 0 <= i <= |keys|
      invariant forall j :: 0 <= j < i ==> envp[j] == Some(lines[j])
      invariant forall j :: i <= j < envp.Length ==> envp[j] == None
    {
      assert keys[i] in envMap.Keys;
      envp[i] := Some(keys[i] + "=" + envMap[keys[i]]);
      assert keys[i] + "=" + envMap[keys[i]] == lines[i];
      i := i + 1;
    }
  }
}
