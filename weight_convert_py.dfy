/** `www/site/cgi-bin/weight_convert.py`: converts a weight on Earth to the
    weight on another planet and answers with an HTML page built from a
    template.

    Not modelled, and passed in instead: `urllib.parse.parse_qs` (text to
    names and value lists), Python's `int` of a text (`None` for
    `ValueError`), whether `float` accepts the weight, the two `%.3f`
    renderings of the floating-point results, Python's `str.lower` and
    `str.upper` (which follow Unicode and may change the length, as `ß`
    upper-cased is `SS`), standard input and the template file (`None` when
    it cannot be opened). */
module WeightConvertPy {
  import opened Text
  import opened CgiFrame
  import CgiHandler

  type Params = map<string, seq<string>>

  /** The gravity factors, as their decimal literals. */
  const GravityFactors: map<string, string> := map[
    "mercury" := "0.38", "venus" := "0.91", "earth" := "1.0",
    "mars" := "0.38", "jupiter" := "2.34", "saturn" := "1.06",
    "uranus" := "0.92", "neptune" := "1.14", "pluto" := "0.06", "moon" := "0.16"]

  /** `GRAVITY_FACTORS.get(name, 1.0)`. */
  function Factor(name: string): string {
    if name in GravityFactors then GravityFactors[name] else "1.0"
  }

  /** `sys.stdin.read(n)`: at most `n` characters, everything for a negative
      `n`. */
  function ReadStdin(stdin: string, n: int): (r: string)
    ensures r <= stdin
    ensures 0 <= n ==> |r| == if n < |stdin| then n else |stdin|
    ensures n < 0 ==> r == stdin
  {
    if n < 0 || n >= |stdin| then stdin else stdin[..n]
  }

  /** The text `get_input_data` hands to `parse_qs`, `None` when `int`
      refuses `CONTENT_LENGTH`. */
  function InputText(env: map<string, string>, stdin: string, pyInt: string -> Option<int>): Option<string> {
    if EnvGet(env, "REQUEST_METHOD", "GET") == "POST" then
      var length := if "CONTENT_LENGTH" in env then pyInt(env["CONTENT_LENGTH"]) else Some(0);
      match length
      case None => None
      case Some(n) => Some(ReadStdin(stdin, n))
    else Some(EnvGet(env, "QUERY_STRING", ""))
  }

  /** Input source: without `REQUEST_METHOD` the request counts as `GET`;
      under `POST` the input is the first `CONTENT_LENGTH` characters of
      standard input (none when it is unset), otherwise it is
      `QUERY_STRING` (empty when unset). */
  lemma InputSource(env: map<string, string>, stdin: string, pyInt: string -> Option<int>)
    ensures "REQUEST_METHOD" !in env ==> InputText(env, stdin, pyInt) == Some(EnvGet(env, "QUERY_STRING", ""))
    ensures EnvGet(env, "REQUEST_METHOD", "GET") != "POST" ==>
      InputText(env, stdin, pyInt) == Some(if "QUERY_STRING" in env then env["QUERY_STRING"] else "")
    ensures EnvGet(env, "REQUEST_METHOD", "GET") == "POST" && "CONTENT_LENGTH" !in env ==>
      InputText(env, stdin, pyInt) == Some("")
    ensures EnvGet(env, "REQUEST_METHOD", "GET") == "POST" && InputText(env, stdin, pyInt).Some? ==>
      InputText(env, stdin, pyInt).value <= stdin
  {
  }

  /** `data.get(key, [None])[0]`. */
  datatype FirstValue = NoValue | Raised | First(v: string)

  function GetFirst(data: Params, key: string): FirstValue {
    if key !in data then NoValue
    else if data[key] == [] then Raised
    else First(data[key][0])
  }

  /** Falsy for Python: `None` or the empty text. */
  predicate Falsy(x: FirstValue) {
    x.NoValue? || (x.First? && x.v == [])
  }

  /** The page: the template with every `{{FINAL_WEIGHT}}`, then every
      `{{PLANET_NAME}}`, then every `{{EARTH_WEIGHT}}` replaced. */
  function Page(template: string, finalWeight: string, planetName: string, earthWeight: string): string {
    var b1 := ReplaceAll(template, "{{FINAL_WEIGHT}}", finalWeight);
    var b2 := ReplaceAll(b1, "{{PLANET_NAME}}", planetName);
    ReplaceAll(b2, "{{EARTH_WEIGHT}}", earthWeight)
  }

  /** The parameters the script cannot compute itself. */
  datatype World = World(
    env: map<string, string>,
    stdin: string,
    parseQs: string -> Params,
    pyInt: string -> Option<int>,
    isFloat: string -> bool,
    formatFinal: (string, string) -> string,
    formatEarth: string -> string,
    lower: string -> string,
    upper: string -> string,
    template: Option<string>)

  /** Everything `main` computes before it writes: `None` when it returns or
      an exception ends it (nothing is written then), else the body. */
  function Body(w: World): Option<string> {
    match InputText(w.env, w.stdin, w.pyInt)
    case None => None
    case Some(q) =>
      var data := w.parseQs(q);
      var weight, planet := GetFirst(data, "weight"), GetFirst(data, "planet");
      if weight.Raised? || planet.Raised? || Falsy(weight) || Falsy(planet) then None
      else
        var name := w.lower(planet.v);
        if !w.isFloat(weight.v) || w.template.None? then None
        else Some(Page(w.template.value, w.formatFinal(weight.v, Factor(name)), w.upper(name), w.formatEarth(weight.v)))
  }

  /** What `main` writes: the framed page, with `len(body)` as its length,
      or nothing. */
  function Main(w: World): string {
    match Body(w)
    case None => ""
    case Some(body) => Framed("200 OK", "text/html", NatToString(|body|), body)
  }

  /** Missing inputs: an absent or empty first `weight` or `planet` value
      ends the script without output. */
  lemma MissingInputs(w: World)
    requires InputText(w.env, w.stdin, w.pyInt).Some?
    requires var data := w.parseQs(InputText(w.env, w.stdin, w.pyInt).value);
      Falsy(GetFirst(data, "weight")) || Falsy(GetFirst(data, "planet"))
    ensures Main(w) == ""
  {
  }

  /** Exceptions are swallowed: a `CONTENT_LENGTH` that `int` refuses, a
      weight value that `float` refuses, or a template that cannot be opened
      leaves the output empty. */
  lemma ExceptionsSwallowed(w: World)
    ensures InputText(w.env, w.stdin, w.pyInt).None? ==> Main(w) == ""
    ensures w.template.None? ==> Main(w) == ""
    ensures InputText(w.env, w.stdin, w.pyInt).Some? ==>
      var weight := GetFirst(w.parseQs(InputText(w.env, w.stdin, w.pyInt).value), "weight");
      weight.First? && !w.isFloat(weight.v) ==> Main(w) == ""
  {
  }

  /** Success framing: the output is all or nothing; when it is there, the
      server reads back the status, the type and exactly the body. */
  lemma SuccessFraming(w: World)
    ensures Main(w) == "" <==> Body(w).None?
    ensures Body(w).Some? ==>
      var r := CgiHandler.Parse(Main(w));
      r.status == "200 OK" && r.contentType == "text/html" && r.body == Body(w).value
  {
    if Body(w).Some? {
      var body := Body(w).value;
      var out := Framed("200 OK", "text/html", NatToString(|body|), body);
      assert Main(w) == out;
      CgiHandler.FramedReadBack("200 OK", "text/html", NatToString(|body|), body);
    }
  }

  const FinalPlaceholder := "{{FINAL_WEIGHT}}"
  const PlanetPlaceholder := "{{PLANET_NAME}}"
  const EarthPlaceholder := "{{EARTH_WEIGHT}}"

  predicate IsPlaceholder(p: string) {
    p == FinalPlaceholder || p == PlanetPlaceholder || p == EarthPlaceholder
  }

  /** Each placeholder shows its own value: a template holding one
      placeholder between brace-free texts becomes those texts around the
      value, whatever order the replacements run in. */
  lemma PageShows(pre: string, post: string, f: string, shown: string, e: string)
    requires NoChar(pre, '{') && NoChar(post, '{')
    requires NoChar(f, '{') && NoChar(shown, '{') && NoChar(e, '{')
    ensures Page(pre + FinalPlaceholder + post, f, shown, e) == pre + f + post
    ensures Page(pre + PlanetPlaceholder + post, f, shown, e) == pre + shown + post
    ensures Page(pre + EarthPlaceholder + post, f, shown, e) == pre + e + post
  {
    // the final weight
    ReplaceOnly(pre, FinalPlaceholder, post, f);
    BraceFree3(pre, f, post);
    BraceFreeUnchanged(pre + f + post, PlanetPlaceholder, shown);
    BraceFreeUnchanged(pre + f + post, EarthPlaceholder, e);
    // the planet name
    OtherPlaceholderAbsent(pre, PlanetPlaceholder, post, FinalPlaceholder);
    ReplaceAllAbsent(pre + PlanetPlaceholder + post, FinalPlaceholder, f);
    ReplaceOnly(pre, PlanetPlaceholder, post, shown);
    BraceFree3(pre, shown, post);
    BraceFreeUnchanged(pre + shown + post, EarthPlaceholder, e);
    // the weight on Earth
    OtherPlaceholderAbsent(pre, EarthPlaceholder, post, FinalPlaceholder);
    ReplaceAllAbsent(pre + EarthPlaceholder + post, FinalPlaceholder, f);
    OtherPlaceholderAbsent(pre, EarthPlaceholder, post, PlanetPlaceholder);
    ReplaceAllAbsent(pre + EarthPlaceholder + post, PlanetPlaceholder, shown);
    ReplaceOnly(pre, EarthPlaceholder, post, e);
  }

  /** Planet lookup: the name is lower-cased (by Python's `str.lower`) for the
      lookup, and an unknown name silently uses factor `1.0`; a template
      holding the name placeholder shows the lower-cased name upper-cased,
      and one holding the weight placeholder shows the weight computed with
      that factor. */
  lemma PlanetLookup(w: World, pre: string, post: string)
    requires InputText(w.env, w.stdin, w.pyInt).Some?
    requires var data := w.parseQs(InputText(w.env, w.stdin, w.pyInt).value);
      var weight, planet := GetFirst(data, "weight"), GetFirst(data, "planet");
      weight.First? && planet.First? && weight.v != [] && planet.v != [] && w.isFloat(weight.v) &&
      NoChar(w.formatFinal(weight.v, Factor(w.lower(planet.v))), '{') &&
      NoChar(w.upper(w.lower(planet.v)), '{') && NoChar(w.formatEarth(weight.v), '{')
    requires NoChar(pre, '{') && NoChar(post, '{')
    ensures var data := w.parseQs(InputText(w.env, w.stdin, w.pyInt).value);
      var weight, planet := GetFirst(data, "weight").v, GetFirst(data, "planet").v;
      (w.lower(planet) !in GravityFactors ==> Factor(w.lower(planet)) == "1.0") &&
      (w.template == Some(pre + PlanetPlaceholder + post) ==>
         Body(w) == Some(pre + w.upper(w.lower(planet)) + post)) &&
      (w.template == Some(pre + FinalPlaceholder + post) ==>
         Body(w) == Some(pre + w.formatFinal(weight, Factor(w.lower(planet))) + post))
  {
    var data := w.parseQs(InputText(w.env, w.stdin, w.pyInt).value);
    var weight, planet := GetFirst(data, "weight").v, GetFirst(data, "planet").v;
    PageShows(pre, post, w.formatFinal(weight, Factor(w.lower(planet))), w.upper(w.lower(planet)), w.formatEarth(weight));
  }

  lemma BraceFree3(a: string, b: string, c: string)
    requires NoChar(a, '{') && NoChar(b, '{') && NoChar(c, '{')
    ensures NoChar(a + b + c, '{')
  {
    NoCharConcat(a, b, '{');
    NoCharConcat(a + b, c, '{');
  }

  /** The facts about the placeholders the proofs use: two opening braces,
      then none. */
  lemma PlaceholderShape(p: string)
    requires IsPlaceholder(p)
    ensures |p| >= 3 && p[0] == '{' && p[1] == '{'
    ensures forall i :: 2 <= i < |p| ==> p[i] != '{'
  {
  }

  /** A brace-free text is left unchanged by the replacement of a
      placeholder. */
  lemma BraceFreeUnchanged(s: string, p: string, v: string)
    requires NoChar(s, '{') && IsPlaceholder(p)
    ensures ReplaceAll(s, p, v) == s
  {
    PlaceholderShape(p);
    NoBraceNoPlaceholder(s, p);
    ReplaceAllAbsent(s, p, v);
  }

  /** Around brace-free texts, a placeholder occurs only where it stands,
      so another placeholder does not occur at all. */
  lemma OtherPlaceholderAbsent(pre: string, p: string, post: string, q: string)
    requires NoChar(pre, '{') && NoChar(post, '{')
    requires IsPlaceholder(p) && IsPlaceholder(q) && p != q
    ensures forall j :: 0 <= j ==> !OccursAt(pre + p + post, q, j)
  {
    PlaceholderShape(p);
    PlaceholderShape(q);
    var t := pre + p + post;
    assert p[2] != q[2];
    forall j | 0 <= j ensures !OccursAt(t, q, j) {
      if j + |q| <= |t| {
        OpeningBraces(pre, p, post, j);
        var w := t[j..j + |q|];
        assert w[0] == t[j] && w[1] == t[j + 1] && w[2] == t[j + 2];
      }
    }
  }

  /** In a placeholder between brace-free texts, two opening braces in a row
      stand only at the placeholder's start. */
  lemma OpeningBraces(pre: string, p: string, post: string, j: nat)
    requires NoChar(pre, '{') && NoChar(post, '{') && IsPlaceholder(p)
    requires j + 2 < |pre + p + post|
    ensures var t := pre + p + post;
      t[j] == '{' && t[j + 1] == '{' ==> j == |pre| && t[j + 2] == p[2]
  {
    PlaceholderShape(p);
    var t := pre + p + post;
    assert forall i :: 0 <= i < |pre| ==> t[i] == pre[i];
    assert forall i :: |pre| <= i < |pre| + |p| ==> t[i] == p[i - |pre|];
    assert forall i :: |pre| + |p| <= i < |t| ==> t[i] == post[i - |pre| - |p|];
  }

  /** Between brace-free texts, the placeholder itself is replaced once. */
  lemma ReplaceOnly(pre: string, p: string, post: string, v: string)
    requires NoChar(pre, '{') && NoChar(post, '{') && IsPlaceholder(p)
    ensures ReplaceAll(pre + p + post, p, v) == pre + v + post
  {
    PlaceholderShape(p);
    var t := pre + p + post;
    assert OccursAt(t, p, |pre|) by {
      assert t[|pre|..|pre| + |p|] == p;
    }
    forall j | 0 <= j < |pre| ensures !OccursAt(t, p, j) {
      assert t[j] == pre[j];
    }
    ReplaceAllAt(t, p, v, |pre|);
    assert t[..|pre|] == pre;
    assert t[|pre| + |p|..] == post;
    BraceFreeUnchanged(post, p, v);
  }

  /** A text without `'{'` holds no placeholder. */
  lemma NoBraceNoPlaceholder(s: string, placeholder: string)
    requires NoChar(s, '{') && |placeholder| > 0 && placeholder[0] == '{'
    ensures forall j :: 0 <= j ==> !OccursAt(s, placeholder, j)
  {
    forall j | 0 <= j ensures !OccursAt(s, placeholder, j) {
      if j + |placeholder| <= |s| {
        assert s[j..j + |placeholder|][0] == s[j];
      }
    }
  }

  // ---------------------------------------------------------------- length in bytes

  /** Character-count length: the declared length is `len(body)`, which is
      the number of bytes the body takes in UTF-8 exactly when the body is
      ASCII. */
  lemma CharCountLength(w: World)
    requires Body(w).Some?
    ensures var body := Body(w).value;
      Main(w) == Framed("200 OK", "text/html", NatToString(|body|), body) &&
      (DecimalValue(NatToString(|body|)) == |Utf8Encode(body)| <==> IsAscii(body))
  {
    Utf8LengthVsLength(Body(w).value);
  }

  /** A page holding a degree sign, one character and two bytes, is
      announced one byte short. */
  lemma DegreeSignMiscounted()
    ensures |"\U{B0}"| == 1 && |Utf8Encode("\U{B0}")| == 2
  {
    assert Utf8Length("\U{B0}"[1..]) == 0;
  }

  /** The script announcing the byte count of the page, as the PHP variant
      does. */
  function MainBytes(w: World): string {
    match Body(w)
    case None => ""
    case Some(body) => Framed("200 OK", "text/html", NatToString(Utf8Length(body)), body)
  }

  /** The announced length is the number of bytes the body takes once
      encoded, whatever characters it holds. */
  lemma ByteCountLength(w: World)
    requires Body(w).Some?
    ensures exists n :: (MainBytes(w) == Framed("200 OK", "text/html", n, Body(w).value) &&
                         AllDigits(n) && DecimalValue(n) == |Utf8Encode(Body(w).value)|)
  {
    var body := Body(w).value;
    var n := NatToString(Utf8Length(body));
    assert MainBytes(w) == Framed("200 OK", "text/html", n, body);
  }
}
