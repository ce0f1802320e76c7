/** `www/site/cgi-bin/calculator.cpp`: the C++ weight converter run as a CGI
    script. It splits its input into `key=value` pairs, fills the
    placeholders of a result template, and prints the page.

    Not modelled, and passed in instead: `atoi` of `CONTENT_LENGTH`, whether
    `std::stod` accepts the weight, the `%.3f` rendering of the rounded
    converted weight (from the weight text and the planet), standard input,
    and the template file (`readFile` gives `""` when it cannot be opened). */
module CalculatorCpp {
  import opened Text
  import opened CgiFrame
  import CgiHandler

  // ---------------------------------------------------------------- parseQuery

  /** The effect of one piece: with an `'='`, the text before the first one
      is the key and everything after it the value; without, nothing. */
  function Insert(data: map<string, string>, pair: string): map<string, string> {
    match FindChar(pair, '=')
    case None => data
    case Some(p) => data[pair[..p] := pair[p + 1..]]
  }

  /** The pieces inserted one after the other. */
  function InsertAll(data: map<string, string>, pieces: seq<string>): map<string, string>
    decreases |pieces|
  {
    if pieces == [] then data else InsertAll(Insert(data, pieces[0]), pieces[1..])
  }

  /** What `parseQuery` returns. */
  function QueryMap(query: string): map<string, string> {
    InsertAll(map[], Pieces(query, '&'))
  }

  /** `parseQuery`: reads the pieces from a stream, inserting each into `data`. */
  method ParseQuery(query: string) returns (data: map<string, string>)
    ensures data == QueryMap(query)
  {
    data := map[];
    var rest := query;
    while rest != []
      invariant InsertAll(data, Pieces(rest, '&')) == QueryMap(query)
      decreases |rest|
    {
      var pair: string;
      match FindChar(rest, '&') {
        case None =>
          pair, rest := rest, [];
        case Some(i) =>
          pair, rest := rest[..i], rest[i + 1..];
      }
      match FindChar(pair, '=') {
        case None =>
        case Some(p) =>
          data := data[pair[..p] := pair[p + 1..]];
      }
    }
  }

  /** Pieces without `'='` contribute nothing. */
  lemma PieceWithoutEquals(data: map<string, string>, pair: string)
    requires NoChar(pair, '=')
    ensures Insert(data, pair) == data
  {
    FindCharAbsent(pair, '=');
  }

  /** The key is the text before the first `'='`, the value all that
      follows it, further `'='` included; nothing is decoded. */
  lemma PieceKeyValue(data: map<string, string>, key: string, value: string)
    requires NoChar(key, '=')
    ensures Insert(data, key + "=" + value) == data[key := value]
  {
    FindCharAfter(key, '=', value);
    var pair := key + "=" + value;
    assert pair[..|key|] == key && pair[|key| + 1..] == value;
  }

  /** Inserting two runs of pieces is inserting their concatenation. */
  lemma {:induction false} InsertAllAppend(data: map<string, string>, a: seq<string>, b: seq<string>)
    ensures InsertAll(data, a + b) == InsertAll(InsertAll(data, a), b)
    decreases |a|
  {
    if a == [] {
      assert a + b == b;
    } else {
      assert (a + b)[0] == a[0] && (a + b)[1..] == a[1..] + b;
      InsertAllAppend(Insert(data, a[0]), a[1..], b);
    }
  }

  /** The key a piece sets, if any. */
  function PieceKey(pair: string): Option<string> {
    match FindChar(pair, '=')
    case None => None
    case Some(p) => Some(pair[..p])
  }

  /** Pieces that do not set `key` leave its entry as it was. */
  lemma {:induction false} InsertAllOthers(data: map<string, string>, pieces: seq<string>, key: string)
    requires forall i :: 0 <= i < |pieces| ==> PieceKey(pieces[i]) != Some(key)
    ensures key in InsertAll(data, pieces) <==> key in data
    ensures key in data ==> InsertAll(data, pieces)[key] == data[key]
    decreases |pieces|
  {
    if pieces != [] {
      assert PieceKey(pieces[0]) != Some(key);
      InsertAllOthers(Insert(data, pieces[0]), pieces[1..], key);
    }
  }

  /** Repeated keys: the last piece that sets a key decides its value. */
  lemma LastPieceWins(data: map<string, string>, before: seq<string>, key: string, value: string, after: seq<string>)
    requires NoChar(key, '=')
    requires forall i :: 0 <= i < |after| ==> PieceKey(after[i]) != Some(key)
    ensures var m := InsertAll(data, before + [key + "=" + value] + after);
      key in m && m[key] == value
  {
    InsertAllAppend(data, before + [key + "=" + value], after);
    InsertAllAppend(data, before, [key + "=" + value]);
    var m0 := InsertAll(data, before);
    PieceKeyValue(m0, key, value);
    assert InsertAll(m0, [key + "=" + value]) == InsertAll(Insert(m0, key + "=" + value), []);
    InsertAllOthers(m0[key := value], after, key);
  }

  // ---------------------------------------------------------------- replaceAll

  /** `replaceAll`: edits `str` in place, searching from just past the text
      it inserted last. An empty `from` returns at once. */
  method ReplaceInPlace(str: string, from: string, to: string) returns (s: string)
    ensures s == ReplaceAll(str, from, to)
    ensures from == [] ==> s == str
  {
    s := str;
    if from == [] {
      return;
    }
    var start: nat := 0;
    assert s[..0] == [] && s[0..] == s;
    var found := FindFrom(s, from, start);
    while found.Some?
      invariant start <= |s|
      invariant ReplaceAll(str, from, to) == s[..start] + ReplaceAll(s[start..], from, to)
      invariant found == FindFrom(s, from, start)
      decreases |s| - start
    {
      var i := found.value;
      FoundInSuffix(s, start, i, from);
      ReplaceStepAt(str, s, start, i, from, to);
      s := s[..i] + to + s[i + |from|..];
      start := i + |to|;
      found := FindFrom(s, from, start);
    }
    NoneInSuffix(s, start, from);
    ReplaceDoneAt(str, s, start, from, to);
  }

  /** One round of the loop: the first occurrence from `start`, at `i`, is
      replaced, the text before the new search position is final, and the
      rest is still to be replaced. */
  lemma ReplaceStepAt(str: string, s: string, start: nat, i: nat, from: string, to: string)
    requires from != [] && start <= i <= |s| && OccursAt(s[start..], from, i - start)
    requires forall j :: 0 <= j < i - start ==> !OccursAt(s[start..], from, j)
    requires ReplaceAll(str, from, to) == s[..start] + ReplaceAll(s[start..], from, to)
    ensures i + |from| <= |s|
    ensures var t := s[..i] + to + s[i + |from|..];
      i + |to| <= |t| && ReplaceAll(str, from, to) == t[..i + |to|] + ReplaceAll(t[i + |to|..], from, to)
  {
    ReplaceFirstOfRest(str, s, start, i, from, to);
    Respliced(s, i, |from|, to);
  }

  /** The same step before the splice: the text up to the occurrence is
      final, `to` follows it, and what followed the occurrence is still to
      be replaced. */
  lemma ReplaceFirstOfRest(str: string, s: string, start: nat, i: nat, from: string, to: string)
    requires from != [] && start <= i <= |s| && OccursAt(s[start..], from, i - start)
    requires forall j :: 0 <= j < i - start ==> !OccursAt(s[start..], from, j)
    requires ReplaceAll(str, from, to) == s[..start] + ReplaceAll(s[start..], from, to)
    ensures i + |from| <= |s|
    ensures ReplaceAll(str, from, to) == s[..i] + to + ReplaceAll(s[i + |from|..], from, to)
  {
    ReplaceRestAt(s, start, i, from, to);
    Regroup(s[..start], s[start..i], s[..i], to, ReplaceAll(s[i + |from|..], from, to));
  }

  /** `ReplaceAll` on the text from `start`, whose first occurrence is at `i`. */
  lemma ReplaceRestAt(s: string, start: nat, i: nat, from: string, to: string)
    requires from != [] && start <= i <= |s| && OccursAt(s[start..], from, i - start)
    requires forall j :: 0 <= j < i - start ==> !OccursAt(s[start..], from, j)
    ensures i + |from| <= |s|
    ensures ReplaceAll(s[start..], from, to) == s[start..i] + to + ReplaceAll(s[i + |from|..], from, to)
  {
    var k := i - start;
    ReplaceAllAt(s[start..], from, to, k);
    assert s[start..][k + |from|..] == s[i + |from|..];
    assert s[start..][..k] == s[start..i];
  }

  lemma Regroup(a: string, b: string, ab: string, c: string, d: string)
    requires ab == a + b
    ensures a + (b + c + d) == ab + c + d
  {
  }

  /** The text after a replacement at `i`, cut at the end of the inserted text. */
  lemma Respliced(s: string, i: nat, n: nat, to: string)
    requires i + n <= |s|
    ensures var t := s[..i] + to + s[i + n..];
      i + |to| <= |t| && t[..i + |to|] == s[..i] + to && t[i + |to|..] == s[i + n..]
  {
  }

  /** Once nothing occurs after the search position, the text is the result. */
  lemma ReplaceDoneAt(str: string, s: string, start: nat, from: string, to: string)
    requires start <= |s| && forall j :: 0 <= j ==> !OccursAt(s[start..], from, j)
    requires ReplaceAll(str, from, to) == s[..start] + ReplaceAll(s[start..], from, to)
    ensures ReplaceAll(str, from, to) == s
  {
    ReplaceAllAbsent(s[start..], from, to);
    assert s[..start] + s[start..] == s;
  }

  /** The occurrence found from `start` is the first one in the text from `start`. */
  lemma FoundInSuffix(s: string, start: nat, i: nat, from: string)
    requires start <= |s| && FindFrom(s, from, start) == Some(i)
    ensures start <= i && OccursAt(s[start..], from, i - start)
    ensures forall j :: 0 <= j < i - start ==> !OccursAt(s[start..], from, j)
  {
    OccursShift(s, start, from, i - start);
    forall j | 0 <= j < i - start ensures !OccursAt(s[start..], from, j) {
      OccursShift(s, start, from, j);
    }
  }

  /** Nothing found from `start`: nothing occurs in the text from `start`. */
  lemma NoneInSuffix(s: string, start: nat, from: string)
    requires start <= |s| && FindFrom(s, from, start) == None
    ensures forall j :: 0 <= j ==> !OccursAt(s[start..], from, j)
  {
    forall j | 0 <= j ensures !OccursAt(s[start..], from, j) {
      OccursShift(s, start, from, j);
    }
  }

  /** Inserted text is not searched again: a `from` replaced by a text that
      contains it is replaced once. */
  lemma NoRescan(from: string, to: string)
    requires from != []
    ensures ReplaceAll(from, from, to) == to
  {
    assert OccursAt(from, from, 0) by { assert from[0..|from|] == from; }
    ReplaceAllHere(from, from, to);
    assert from[|from|..] == [];
  }

  // ---------------------------------------------------------------- main

  const GravityFactors: set<string> := {
    "mercury", "venus", "earth", "mars", "jupiter", "saturn", "uranus", "neptune", "pluto", "moon" }

  /** The parameters the program cannot compute itself. */
  datatype World = World(
    env: map<string, string>,
    stdin: string,
    atoi: string -> int,
    stodAccepts: string -> bool,
    formatResult: (string, string) -> string,
    template: string)

  /** `len` characters of standard input: the buffer holds `len` zero
      characters and `read` fills as many as standard input provides. */
  function ReadPadded(stdin: string, len: nat): (r: string)
    ensures |r| == len
    ensures r[..if len < |stdin| then len else |stdin|] == stdin[..if len < |stdin| then len else |stdin|]
    ensures forall i :: |stdin| <= i < len ==> r[i] == '\0'
  {
    if len <= |stdin| then stdin[..len]
    else stdin + seq(len - |stdin|, _ => '\0')
  }

  /** The text handed to `parseQuery`; `None` when the program ends before
      that: a negative `atoi` result, converted to `size_t`, asks for a
      buffer larger than any vector can hold, and that exception is thrown
      outside the `try` block. */
  function InputData(w: World): Option<string> {
    if EnvGet(w.env, "REQUEST_METHOD", "GET") == "POST" then
      var len := if "CONTENT_LENGTH" in w.env then w.atoi(w.env["CONTENT_LENGTH"]) else 0;
      if len < 0 then None
      else if len == 0 then Some("")
      else Some(ReadPadded(w.stdin, len))
    else Some(EnvGet(w.env, "QUERY_STRING", ""))
  }

  /** The header lines the program writes into the text that replaces
      `{{FINAL_WEIGHT}}`; the length is the literal `{len(body)}`. */
  const HeaderLines: string :=
    "Status: 200 OK" + CRLF + "Content-Type: text/plain" + CRLF + "Content-Length: {len(body)}" + CRLF

  const ErrorText: string := "Error: 500\n"
  const MissingTemplateText: string := "Error : 502\n"

  /** The page as written: the header lines and the result take the place
      of `{{FINAL_WEIGHT}}`, the planet that of `{{PLANET_NAME}}`, and the
      converted weight (not the weight on Earth) that of `{{EARTH_WEIGHT}}`. */
  function Page(template: string, planet: string, result: string): string {
    var h1 := ReplaceAll(template, "{{FINAL_WEIGHT}}", HeaderLines + result);
    var h2 := ReplaceAll(h1, "{{PLANET_NAME}}", planet);
    ReplaceAll(h2, "{{EARTH_WEIGHT}}", result)
  }

  /** What `main` prints, `None` when it ends abnormally before printing. */
  function Output(w: World): Option<string> {
    match InputData(w)
    case None => None
    case Some(input) =>
      var data := QueryMap(input);
      if "weight" !in data || !w.stodAccepts(data["weight"]) then Some(ErrorText)
      else if "planet" !in data || data["planet"] !in GravityFactors then Some(ErrorText)
      else
        var planet := data["planet"];
        var warning := if w.template == [] then MissingTemplateText else "";
        Some(warning + Page(w.template, planet, w.formatResult(data["weight"], planet)))
  }

  /** Input selection: without `REQUEST_METHOD` the request counts as `GET`
      and the input is `QUERY_STRING` (empty when unset); under `POST` it is
      `atoi(CONTENT_LENGTH)` characters of standard input, zero characters
      making up for what standard input lacks. */
  lemma InputSelection(w: World)
    ensures EnvGet(w.env, "REQUEST_METHOD", "GET") != "POST" ==>
      InputData(w) == Some(if "QUERY_STRING" in w.env then w.env["QUERY_STRING"] else "")
    ensures "REQUEST_METHOD" !in w.env ==> InputData(w) == Some(EnvGet(w.env, "QUERY_STRING", ""))
    ensures EnvGet(w.env, "REQUEST_METHOD", "GET") == "POST" && "CONTENT_LENGTH" !in w.env ==> InputData(w) == Some("")
    ensures EnvGet(w.env, "REQUEST_METHOD", "GET") == "POST" && "CONTENT_LENGTH" in w.env ==>
      var len := w.atoi(w.env["CONTENT_LENGTH"]);
      (len < 0 <==> InputData(w).None?) &&
      (len >= 0 ==> (|InputData(w).value| == len &&
        (len <= |w.stdin| ==> InputData(w).value == w.stdin[..len])))
  {
  }

  /** The checks `main` makes before it builds the page. */
  predicate Accepted(w: World, data: map<string, string>) {
    "weight" in data && w.stodAccepts(data["weight"]) && "planet" in data && data["planet"] in GravityFactors
  }

  /** Error output: a missing `weight` or `planet`, a weight `stod` refuses
      or an unknown planet (the name is not lower-cased) prints only
      `"Error: 500\n"`: no `Status` line, no empty line. Otherwise the
      output is the page, after the warning when the template is empty. */
  lemma ErrorCases(w: World)
    requires InputData(w).Some?
    ensures var data := QueryMap(InputData(w).value);
      (!Accepted(w, data) ==> Output(w) == Some(ErrorText)) &&
      (Accepted(w, data) ==> (Output(w) ==
        Some((if w.template == [] then MissingTemplateText else "") +
             Page(w.template, data["planet"], w.formatResult(data["weight"], data["planet"])))))
  {
  }

  /** The error text has no empty line, so the server takes all of it as
      the body and reports `200 OK`. */
  lemma ServerReadsError()
    ensures var r := CgiHandler.Parse(ErrorText);
      r.body == ErrorText && r.status == "200 OK"
  {
    var a := "Error: 500";
    assert ErrorText == a + "\n";
    assert NoChar(a, '\n') && NoChar(a + "\n", '\r');
    NoCrNoBlank(ErrorText);
    OneNewline(a);
    CgiHandler.NoSeparator(ErrorText);
  }

  /** A missing template prints the warning, then goes on with an empty
      page. */
  lemma MissingTemplate(w: World)
    requires InputData(w).Some? && Accepted(w, QueryMap(InputData(w).value)) && w.template == []
    ensures Output(w) == Some(MissingTemplateText)
  {
    var data := QueryMap(InputData(w).value);
    var r := w.formatResult(data["weight"], data["planet"]);
    assert ReplaceAll([], "{{FINAL_WEIGHT}}", HeaderLines + r) == [];
    assert MissingTemplateText + [] == MissingTemplateText;
  }

  /** Headers spliced into the body: for a template with one
      `{{FINAL_WEIGHT}}` and text around it that holds no placeholder, the
      page is that text with the header lines and the result in the
      placeholder's place; no header block comes before it. */
  lemma HeadersSpliced(pre: string, post: string, planet: string, result: string)
    requires NoChar(pre, '{') && NoChar(post, '{') && NoChar(result, '{')
    ensures ReplaceAll(pre + "{{FINAL_WEIGHT}}" + post, "{{FINAL_WEIGHT}}", HeaderLines + result) ==
      pre + HeaderLines + result + post
  {
    var fw := "{{FINAL_WEIGHT}}";
    NoBraceBefore(pre, fw, post);
    NoBraceNoOccurrence(post, fw);
    ReplaceSingle(pre, fw, post, HeaderLines + result);
  }

  /** A text without `'{'` in front of a placeholder: the placeholder is the
      first occurrence. */
  lemma NoBraceBefore(pre: string, placeholder: string, post: string)
    requires NoChar(pre, '{') && |placeholder| > 0 && placeholder[0] == '{'
    ensures forall j :: 0 <= j < |pre| ==> !OccursAt(pre + placeholder + post, placeholder, j)
  {
    var t := pre + placeholder + post;
    forall j | 0 <= j < |pre| ensures !OccursAt(t, placeholder, j) {
      if j + |placeholder| <= |t| {
        assert t[j..j + |placeholder|][0] == t[j] == pre[j];
      }
    }
  }

  /** One occurrence between two texts that hold none is replaced, and
      nothing else changes. */
  lemma ReplaceSingle(pre: string, from: string, post: string, to: string)
    requires from != []
    requires forall j :: 0 <= j < |pre| ==> !OccursAt(pre + from + post, from, j)
    requires forall j :: 0 <= j ==> !OccursAt(post, from, j)
    ensures ReplaceAll(pre + from + post, from, to) == pre + to + post
  {
    var t := pre + from + post;
    assert t[|pre|..|pre| + |from|] == from;
    ReplaceAllAt(t, from, to, |pre|);
    assert t[|pre| + |from|..] == post;
    assert t[..|pre|] == pre;
    ReplaceAllAbsent(post, from, to);
  }

  /** A text without `'{'` holds no placeholder. */
  lemma NoBraceNoOccurrence(s: string, placeholder: string)
    requires NoChar(s, '{') && |placeholder| > 0 && placeholder[0] == '{'
    ensures forall j :: 0 <= j ==> !OccursAt(s, placeholder, j)
  {
    forall j | 0 <= j ensures !OccursAt(s, placeholder, j) {
      if j + |placeholder| <= |s| {
        assert s[j..j + |placeholder|][0] == s[j];
      }
    }
  }

  lemma NoCrNoBlank(s: string)
    requires NoChar(s, '\r')
    ensures !Contains(s, Blank)
  {
    forall j | 0 <= j <= |s| ensures !OccursAt(s, Blank, j) {
      if j + 4 <= |s| {
        assert s[j..j + 4][0] == s[j];
      }
    }
  }

  lemma OneNewline(a: string)
    requires NoChar(a, '\n')
    ensures !Contains(a + "\n", "\n\n")
  {
    var s := a + "\n";
    forall j | 0 <= j <= |s| ensures !OccursAt(s, "\n\n", j) {
      if j + 2 <= |s| {
        assert s[j..j + 2][0] == s[j] == a[j];
      }
    }
  }

  // ---------------------------------------------------------------- weight on Earth

  /** As written, the converted weight also fills `{{EARTH_WEIGHT}}`: a
      template made of that placeholder shows the converted weight. */
  lemma EarthWeightShowsResult(planet: string, result: string)
    ensures Page("{{EARTH_WEIGHT}}", planet, result) == result
  {
    var ew := "{{EARTH_WEIGHT}}";
    OnlyItself(planet, result);
    NoRescan(ew, result);
  }

  /** Neither of the first two placeholders occurs in the third. */
  lemma OnlyItself(planet: string, result: string)
    ensures ReplaceAll("{{EARTH_WEIGHT}}", "{{FINAL_WEIGHT}}", HeaderLines + result) == "{{EARTH_WEIGHT}}"
    ensures ReplaceAll("{{EARTH_WEIGHT}}", "{{PLANET_NAME}}", planet) == "{{EARTH_WEIGHT}}"
  {
    var ew := "{{EARTH_WEIGHT}}";
    forall j | 0 <= j ensures !OccursAt(ew, "{{FINAL_WEIGHT}}", j) {
      if j == 0 { assert ew[2] != "{{FINAL_WEIGHT}}"[2]; }
    }
    forall j | 0 <= j ensures !OccursAt(ew, "{{PLANET_NAME}}", j) {
      if j == 0 { assert ew[2] != "{{PLANET_NAME}}"[2]; }
      if j == 1 { assert ew[1..16][1] == ew[2] && ew[2] != "{{PLANET_NAME}}"[1]; }
    }
    ReplaceAllAbsent(ew, "{{FINAL_WEIGHT}}", HeaderLines + result);
    ReplaceAllAbsent(ew, "{{PLANET_NAME}}", planet);
  }

  /** The page as evidently intended: the weight on Earth fills
      `{{EARTH_WEIGHT}}`. */
  function PageIntended(template: string, planet: string, result: string, earth: string): string {
    var h1 := ReplaceAll(template, "{{FINAL_WEIGHT}}", HeaderLines + result);
    var h2 := ReplaceAll(h1, "{{PLANET_NAME}}", planet);
    ReplaceAll(h2, "{{EARTH_WEIGHT}}", earth)
  }

  /** The program as evidently intended, with the `%.3f` rendering of the
      weight on Earth as a further parameter. */
  function OutputIntended(w: World, formatEarth: string -> string): Option<string> {
    match InputData(w)
    case None => None
    case Some(input) =>
      var data := QueryMap(input);
      if !Accepted(w, data) then Some(ErrorText)
      else
        var planet := data["planet"];
        var warning := if w.template == [] then MissingTemplateText else "";
        Some(warning + PageIntended(w.template, planet, w.formatResult(data["weight"], planet), formatEarth(data["weight"])))
  }

  /** The intended program shows the weight on Earth where the template asks
      for it. */
  lemma EarthWeightShown(w: World, formatEarth: string -> string)
    requires InputData(w).Some? && Accepted(w, QueryMap(InputData(w).value)) && w.template == "{{EARTH_WEIGHT}}"
    ensures OutputIntended(w, formatEarth) == Some(formatEarth(QueryMap(InputData(w).value)["weight"]))
  {
    var data := QueryMap(InputData(w).value);
    OnlyItself(data["planet"], w.formatResult(data["weight"], data["planet"]));
    NoRescan("{{EARTH_WEIGHT}}", formatEarth(data["weight"]));
    assert "" + formatEarth(data["weight"]) == formatEarth(data["weight"]);
  }
}
