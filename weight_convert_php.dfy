/** `www/site/cgi-bin/weight_convert.php`: the PHP variant of the weight
    converter, which reports failures as a `500` response.

    Not modelled, and passed in instead: the request parameters PHP collects
    in `$_REQUEST` (a map from names to texts), the two `number_format`
    renderings of the floating-point results, and the template file (`None`
    when it does not exist). Texts are read as UTF-8, so `strlen` is their
    UTF-8 length. */
module WeightConvertPhp {
  import opened Text
  import opened CgiFrame
  import CgiHandler

  const GravityFactors: set<string> := {
    "mercury", "venus", "earth", "mars", "jupiter", "saturn", "uranus", "neptune", "pluto", "moon" }

  /** PHP's falsy texts: a missing value (`null`), `""` and `"0"`. */
  predicate Falsy(v: Option<string>) {
    v.None? || v.value == "" || v.value == "0"
  }

  function Lookup(request: map<string, string>, key: string): Option<string> {
    if key in request then Some(request[key]) else None
  }

  datatype Outcome = Page(html: string) | Failure(message: string)

  /** The parameters the script cannot compute itself: the rendered final
      weight from the weight text and the planet, the rendered weight, and
      the template. */
  datatype World = World(
    request: map<string, string>,
    formatFinal: (string, string) -> string,
    formatEarth: string -> string,
    template: Option<string>)

  /** The checks in order, each failure ending the `try` block with its
      message, then the placeholders replaced in order. */
  function Run(w: World): Outcome {
    var weight, planet := Lookup(w.request, "weight"), Lookup(w.request, "planet");
    if Falsy(weight) || Falsy(planet) then Failure("Missing parameters")
    else
      var name := Lower(planet.value);
      if name !in GravityFactors then Failure("Invalid planet")
      else if w.template.None? then Failure("Template not found")
      else
        var h1 := ReplaceAll(w.template.value, "{{FINAL_WEIGHT}}", w.formatFinal(weight.value, name));
        var h2 := ReplaceAll(h1, "{{PLANET_NAME}}", Upper(name));
        Page(ReplaceAll(h2, "{{EARTH_WEIGHT}}", w.formatEarth(weight.value)))
  }

  /** The failure response: a status line and a type line, the empty line,
      and the message; no `Content-Length` line. */
  function ErrorOutput(message: string): string {
    StatusTypeBlock("500 Internal Server Error", "text/plain") + Blank + ("Error: " + message)
  }

  /** What the script prints. */
  function Output(w: World): string {
    match Run(w)
    case Page(html) => Framed("200 OK", "text/html", NatToString(Utf8Length(html)), html)
    case Failure(message) => ErrorOutput(message)
  }

  /** The error taxonomy: a missing or falsy parameter (`"0"` included)
      comes first, then an unknown lower-cased planet, then a missing
      template; a run with none of these gives the page. */
  lemma ErrorTaxonomy(w: World)
    ensures var weight, planet := Lookup(w.request, "weight"), Lookup(w.request, "planet");
      (Falsy(weight) || Falsy(planet) <==> Run(w) == Failure("Missing parameters")) &&
      (!Falsy(weight) && !Falsy(planet) ==>
        (Lower(planet.value) !in GravityFactors <==> Run(w) == Failure("Invalid planet")) &&
        (Lower(planet.value) in GravityFactors ==>
          (w.template.None? <==> Run(w) == Failure("Template not found")) &&
          (w.template.Some? <==> Run(w).Page?)))
  {
  }

  /** A weight of `"0"` counts as missing. */
  lemma ZeroWeightMissing(w: World)
    requires "weight" in w.request && w.request["weight"] == "0"
    ensures Output(w) == ErrorOutput("Missing parameters")
  {
  }

  /** Success framing: the declared length is the page's byte count, and the
      server reads back status, type and page. */
  lemma SuccessFraming(w: World)
    requires Run(w).Page?
    ensures var html := Run(w).html;
      Output(w) == Framed("200 OK", "text/html", NatToString(|Utf8Encode(html)|), html) &&
      CgiHandler.Parse(Output(w)).status == "200 OK" &&
      CgiHandler.Parse(Output(w)).body == html
  {
    var html := Run(w).html;
    CgiHandler.NatToStringPlain(Utf8Length(html));
    LiteralsPlain();
    CgiHandler.ParseFramed("200 OK", "text/html", NatToString(Utf8Length(html)), html);
  }

  /** Error framing: the server finds the separator after the type line and
      reads the message back as the body, but the type line is the block's
      last line, so the parsed type stays the default `text/html`. */
  lemma ErrorFraming(message: string)
    ensures var r := CgiHandler.Parse(ErrorOutput(message));
      r.status == "500 Internal Server Error" && r.contentType == "text/html" &&
      r.body == "Error: " + message
  {
    LiteralsPlain();
    CgiHandler.ParseStatusType("500 Internal Server Error", "text/plain", "Error: " + message);
  }
}
