/** The configuration tokenizer of `srcs/JSON.cpp`: a token tree built by
    splitting text at the first delimiter that lies outside quotes and
    outside braces and brackets. */
module Json {
  import opened Text

  /** `TokenType`. */
  datatype TokenType = Object | Array | Identifier | Element | Value | Primitive | Null

  /** `Token`: a type, a text value and the child tokens. */
  datatype Token = Token(kind: TokenType, value: string, children: seq<Token>)

  /** `typeToString`: the name of each type. */
  function TypeToString(t: TokenType): string {
    match t
    case Array => "Array"
    case Element => "Element"
    case Identifier => "Identifier"
    case Object => "Object"
    case Value => "Value"
    case Primitive => "Primitive"
    case Null => "Null"
  }

  /** Every type has a name of its own. */
  lemma TypeNamesDistinct(s: TokenType, t: TokenType)
    ensures TypeToString(s) != []
    ensures TypeToString(s) == TypeToString(t) ==> s == t
  {
  }

  // ---------------------------------------------------------------- trim

  /** The characters `trim` removes. */
  const Blanks: set<char> := {' ', '\t', '\n'}

  /** `trim`: the text without its leading and trailing blanks; empty when
      the text is nothing but blanks. */
  function Trim(sv: string): (r: string)
    ensures AllIn(sv, Blanks) <==> r == []
    ensures r != [] ==> r[0] !in Blanks && r[|r| - 1] !in Blanks
    ensures |r| <= |sv|
  {
    Strip(sv, Blanks)
  }

  /** Trimming twice is trimming once. */
  lemma TrimIdempotent(sv: string)
    ensures Trim(Trim(sv)) == Trim(sv)
  {
    var r := Trim(sv);
    if r != [] {
      assert AllIn(r[..0], Blanks) && AllIn(r[|r|..], Blanks);
      StripIs(r, Blanks, 0, |r|);
      assert r[0..|r|] == r;
    }
  }

  // ---------------------------------------------------------------- unquotedDelimiter

  /** The scanner's state: inside a quote or not, and the brace and bracket
      depths. */
  datatype Scan = Scan(inQuote: bool, curly: int, square: int)

  /** The state after character `i`: an unescaped `'"'` toggles the quote
      (a `'"'` right after `'\\'` does not), and outside a quote the braces
      and brackets move the depths. */
  function Step(st: Scan, sv: string, i: nat): Scan
    requires i < |sv|
  {
    var q := if sv[i] == '"' && (i == 0 || sv[i - 1] != '\\') then !st.inQuote else st.inQuote;
    var curly := if sv[i] == '{' && !q then st.curly + 1 else if sv[i] == '}' && !q then st.curly - 1 else st.curly;
    var square := if sv[i] == '[' && !q then st.square + 1 else if sv[i] == ']' && !q then st.square - 1 else st.square;
    Scan(q, curly, square)
  }

  /** The state after the first `n` characters. */
  function ScanTo(sv: string, n: nat): Scan
    requires n <= |sv|
  {
    if n == 0 then Scan(false, 0, 0) else Step(ScanTo(sv, n - 1), sv, n - 1)
  }

  /** Character `i` is `c`, outside any quote and at depth zero. */
  predicate TopLevelAt(sv: string, c: char, i: nat)
    requires i < |sv|
  {
    var st := ScanTo(sv, i + 1);
    sv[i] == c && !st.inQuote && st.curly == 0 && st.square == 0
  }

  /** The first top-level `c` at or after `from`. */
  function FirstTopLevelFrom(sv: string, c: char, from: nat): (r: Option<nat>)
    requires from <= |sv|
    ensures r.Some? ==> from <= r.value < |sv| && TopLevelAt(sv, c, r.value)
    ensures forall j :: from <= j < |sv| && (r.None? || j < r.value) ==> !TopLevelAt(sv, c, j)
    decreases |sv| - from
  {
    if from == |sv| then None
    else if TopLevelAt(sv, c, from) then Some(from)
    else FirstTopLevelFrom(sv, c, from + 1)
  }

  /** What `unquotedDelimiter` computes: the first top-level `c`, or None
      for `npos`. */
  function FirstTopLevel(sv: string, c: char): Option<nat> {
    FirstTopLevelFrom(sv, c, 0)
  }

  /** `unquotedDelimiter`: one pass that tracks quotes and depths and stops
      at the first `c` outside quotes at depth zero. */
  method UnquotedDelimiter(sv: string, c: char) returns (pos: Option<nat>)
    ensures pos == FirstTopLevel(sv, c)
    ensures pos.Some? ==> pos.value < |sv| && TopLevelAt(sv, c, pos.value)
    ensures forall j :: 0 <= j < |sv| && (pos.None? || j < pos.value) ==> !TopLevelAt(sv, c, j)
  {
    var inQuote := false;
    var curly := 0;
    var square := 0;
    var i := 0;
    while i < |sv|
      invariant i <= |sv|
      invariant Scan(inQuote, curly, square) == ScanTo(sv, i)
      invariant FirstTopLevelFrom(sv, c, i) == FirstTopLevel(sv, c)
    {
      if sv[i] == '"' && (i == 0 || sv[i - 1] != '\\') {
        inQuote := !inQuote;
      }
      if sv[i] == '{' && !inQuote {
        curly := curly + 1;
      }
      if sv[i] == '}' && !inQuote {
        curly := curly - 1;
      }
      if sv[i] == '[' && !inQuote {
        square := square + 1;
      }
      if sv[i] == ']' && !inQuote {
        square := square - 1;
      }
      if sv[i] == c && !inQuote && curly == 0 && square == 0 {
        return Some(i);
      }
      i := i + 1;
    }
    return None;
  }

  /** The scan of a prefix agrees with the scan of the whole text. */
  lemma {:induction false} ScanPrefix(sv: string, k: nat, n: nat)
    requires n <= k <= |sv|
    ensures ScanTo(sv[..k], n) == ScanTo(sv, n)
    decreases n
  {
    if n > 0 {
      ScanPrefix(sv, k, n - 1);
    }
  }

  /** A prefix that ends before the first top-level `c` holds none. */
  lemma PrefixHasNone(sv: string, c: char, p: nat)
    requires p <= |sv|
    requires forall j :: 0 <= j < p ==> !TopLevelAt(sv, c, j)
    ensures FirstTopLevel(sv[..p], c).None?
  {
    var s := sv[..p];
    forall j | 0 <= j < p ensures !TopLevelAt(s, c, j) {
      ScanPrefix(sv, p, j + 1);
      assert !TopLevelAt(sv, c, j);
    }
  }

  // ---------------------------------------------------------------- splitElements

  /** The pieces `splitElements`' loop cuts from `buffer`: text up to the
      first top-level `','`, then the pieces of what follows it; a
      non-empty rest without one is the last piece. */
  function Pieces(buffer: string): (r: seq<string>)
    ensures buffer != [] ==> r != []
    ensures forall i :: 0 <= i < |r| ==> |r[i]| <= |buffer|
    decreases |buffer|
  {
    if buffer == [] then []
    else
      match FirstTopLevel(buffer, ',')
      case None => [buffer]
      case Some(p) => [buffer[..p]] + Pieces(buffer[p + 1..])
  }

  /** What `splitElements` returns: the whole text when it has no
      top-level `','`, else the pieces. */
  function Elements(sv: string): (r: seq<string>)
    ensures |r| >= 1
    ensures forall i :: 0 <= i < |r| ==> |r[i]| <= |sv|
  {
    if FirstTopLevel(sv, ',').None? then [sv] else Pieces(sv)
  }

  /** `splitElements`: cuts pieces off the front of a buffer until no
      top-level `','` is left, and keeps a non-empty remainder. */
  method SplitElements(sv: string) returns (tokens: seq<string>)
    ensures tokens == Elements(sv)
  {
    var found := UnquotedDelimiter(sv, ',');
    if found.Some? {
      tokens := [];
      var buffer := sv;
      var pos := UnquotedDelimiter(buffer, ',');
      while buffer != [] && pos.Some?
        invariant tokens + Pieces(buffer) == Pieces(sv)
        invariant pos == FirstTopLevel(buffer, ',')
        decreases |buffer|
      {
        tokens := tokens + [buffer[..pos.value]];
        buffer := buffer[pos.value + 1..];
        pos := UnquotedDelimiter(buffer, ',');
      }
      if buffer != [] {
        tokens := tokens + [buffer];
      }
    } else {
      tokens := [sv];
    }
  }

  /** Joined with `','` the pieces give the text back, except that a final
      top-level `','` is lost. */
  lemma {:induction false} PiecesJoinBack(buffer: string)
    requires buffer != []
    ensures var j := Join(Pieces(buffer), ",");
      j == buffer || (j + "," == buffer && buffer[|buffer| - 1] == ',')
    decreases |buffer|
  {
    match FirstTopLevel(buffer, ',')
    case None =>
    case Some(p) =>
      var head, rest := buffer[..p], buffer[p + 1..];
      assert buffer == head + "," + rest;
      if rest == [] {
        assert Pieces(buffer) == [head];
      } else {
        PiecesJoinBack(rest);
        JoinCons(head, Pieces(rest), ",");
        assert Pieces(buffer) == [head] + Pieces(rest);
      }
  }

  /** No piece holds a top-level `','` of its own. */
  lemma {:induction false} PiecesCommaFree(buffer: string)
    ensures forall i :: 0 <= i < |Pieces(buffer)| ==> FirstTopLevel(Pieces(buffer)[i], ',').None?
    decreases |buffer|
  {
    if buffer != [] {
      match FirstTopLevel(buffer, ',')
      case None =>
      case Some(p) =>
        PrefixHasNone(buffer, ',', p);
        PiecesCommaFree(buffer[p + 1..]);
        var r := Pieces(buffer);
        assert r == [buffer[..p]] + Pieces(buffer[p + 1..]);
        forall i | 0 <= i < |r| ensures FirstTopLevel(r[i], ',').None? {
          if i > 0 {
            assert r[i] == Pieces(buffer[p + 1..])[i - 1];
          }
        }
    }
  }

  /** `splitElements` in full: at least one piece; the text itself when it
      has no top-level `','`; otherwise pieces without a top-level `','`
      that join back to the text, less a final `','`. */
  lemma ElementsSplit(sv: string)
    ensures FirstTopLevel(sv, ',').None? ==> Elements(sv) == [sv]
    ensures forall i :: 0 <= i < |Elements(sv)| ==> FirstTopLevel(Elements(sv)[i], ',').None?
    ensures var j := Join(Elements(sv), ",");
      j == sv || (j + "," == sv && sv[|sv| - 1] == ',')
  {
    if FirstTopLevel(sv, ',').Some? {
      PiecesCommaFree(sv);
      PiecesJoinBack(sv);
    }
  }

  // ---------------------------------------------------------------- createToken

  /** `getTokenType`, checks in order: empty, braces, brackets, a top-level
      `':'`, quotes, anything else. */
  function GetTokenType(str: string): (t: TokenType)
    ensures t != Identifier
    ensures t == Null <==> str == []
  {
    if str == [] then Null
    else if str[0] == '{' && str[|str| - 1] == '}' then Object
    else if str[0] == '[' && str[|str| - 1] == ']' then Array
    else if FirstTopLevel(str, ':').Some? then Element
    else if str[0] == '"' && str[|str| - 1] == '"' then Value
    else Primitive
  }

  /** `removeQuotes`: the trimmed inside of a quoted text, anything else
      unchanged. */
  function RemoveQuotes(str: string): (r: string)
    ensures |r| <= |str|
  {
    if |str| >= 2 && str[0] == '"' && str[|str| - 1] == '"' then Trim(str[1..|str| - 1]) else str
  }

  /** Quoting a text without outer blanks and removing the quotes gives the
      text back; a text not wrapped in quotes is left alone. */
  lemma RemoveQuotesInverse(x: string)
    requires x == [] || (x[0] !in Blanks && x[|x| - 1] !in Blanks)
    ensures RemoveQuotes("\"" + x + "\"") == x
    ensures x == [] || x[0] != '"' ==> RemoveQuotes(x) == x
  {
    var q := "\"" + x + "\"";
    assert q[1..|q| - 1] == x;
    if x != [] {
      assert AllIn(x[..0], Blanks) && AllIn(x[|x|..], Blanks);
      StripIs(x, Blanks, 0, |x|);
      assert x[0..|x|] == x;
    }
  }

  /** `createToken(str, type)`: an identifier or a value holds the text
      without its quotes; any other type is worked out from the text. */
  function CreateTokenAs(str: string, t: TokenType): Token
    decreases |str|, 3
  {
    if t == Identifier || t == Value then Token(t, RemoveQuotes(str), [])
    else CreateToken(str)
  }

  /** `createToken(str)`, by the type `getTokenType` gives. A value holds
      the text without quotes and a primitive the text itself. For the
      empty text the type is `Null`. */
  function CreateToken(str: string): Token
    decreases |str|, 2
  {
    match GetTokenType(str)
    case Object => ContainerToken(Object, str)
    case Array => ContainerToken(Array, str)
    case Element => ElementToken(str, FirstTopLevel(str, ':').value)
    case Value => Token(Value, RemoveQuotes(str), [])
    case Primitive => Token(Primitive, str, [])
    case Null => Token(Null, "", [])
    case Identifier => Token(Null, "", [])
  }

  /** Braces or brackets: one child per trimmed piece of the trimmed
      inside, and none when nothing is between them. */
  function ContainerToken(kind: TokenType, str: string): Token
    requires |str| >= 2
    decreases |str|, 1
  {
    var len := |str|;
    Token(kind, "", if len > 2 then Children(Elements(Trim(str[1..len - 1])), len) else [])
  }

  /** An element: its trimmed key as an identifier, then the token of its
      trimmed value. */
  function ElementToken(str: string, pos: nat): Token
    requires pos < |str|
    decreases |str|, 1
  {
    var left := Trim(str[..pos]);
    var right := Trim(str[pos + 1..]);
    Token(Element, "", [CreateTokenAs(left, Identifier), CreateToken(right)])
  }

  /** The loop over the pieces: one token per trimmed piece, in order. */
  function Children(values: seq<string>, bound: nat): (r: seq<Token>)
    requires forall i :: 0 <= i < |values| ==> |values[i]| < bound
    ensures |r| == |values|
    decreases bound, 0, |values|
  {
    if values == [] then []
    else [CreateToken(Trim(values[0]))] + Children(values[1..], bound)
  }

  /** The shape every token tree has: leaves hold no children; an element
      holds an identifier leaf and one more token; no token below the root
      is an identifier except an element's key. */
  predicate WellFormed(t: Token)
    decreases t
  {
    match t.kind
    case Identifier => t.children == []
    case Value => t.children == []
    case Primitive => t.children == []
    case Null => t.children == [] && t.value == []
    case Element =>
      |t.children| == 2 && t.value == [] &&
      t.children[0].kind == Identifier && t.children[0].children == [] &&
      t.children[1].kind != Identifier && WellFormed(t.children[1])
    case Object => t.value == [] && ChildrenOk(t.children)
    case Array => t.value == [] && ChildrenOk(t.children)
  }

  /** Every child is a well-formed token other than an identifier. */
  predicate ChildrenOk(cs: seq<Token>)
    decreases cs, 0
  {
    forall i :: 0 <= i < |cs| ==> cs[i].kind != Identifier && WellFormed(cs[i])
  }

  /** Every token `createToken` builds is well formed and has the type
      `getTokenType` gives its text. */
  lemma {:induction false} CreateTokenWellFormed(str: string)
    ensures CreateToken(str).kind == GetTokenType(str)
    ensures WellFormed(CreateToken(str))
    decreases |str|, 2
  {
    var t := GetTokenType(str);
    if t == Object || t == Array {
      assert CreateToken(str) == ContainerToken(t, str);
      ContainerWellFormed(t, str);
    } else if t == Element {
      var pos := FirstTopLevel(str, ':').value;
      assert CreateToken(str) == ElementToken(str, pos);
      ElementWellFormed(str, pos);
    }
  }

  lemma {:induction false} ContainerWellFormed(kind: TokenType, str: string)
    requires |str| >= 2 && kind in {Object, Array}
    ensures ContainerToken(kind, str).kind == kind
    ensures WellFormed(ContainerToken(kind, str))
    decreases |str|, 1
  {
    var len := |str|;
    var cs: seq<Token> := [];
    if len > 2 {
      var values := Elements(Trim(str[1..len - 1]));
      ChildrenWellFormed(values, len);
      cs := Children(values, len);
    }
    assert ContainerToken(kind, str) == Token(kind, "", cs);
    assert ChildrenOk(cs);
  }

  lemma {:induction false} ElementWellFormed(str: string, pos: nat)
    requires pos < |str|
    ensures WellFormed(ElementToken(str, pos))
    decreases |str|, 1
  {
    CreateTokenWellFormed(Trim(str[pos + 1..]));
  }

  lemma {:induction false} ChildrenWellFormed(values: seq<string>, bound: nat)
    requires forall i :: 0 <= i < |values| ==> |values[i]| < bound
    ensures ChildrenOk(Children(values, bound))
    decreases bound, 0, |values|
  {
    if values != [] {
      CreateTokenWellFormed(Trim(values[0]));
      ChildrenWellFormed(values[1..], bound);
      var r := Children(values, bound);
      assert r == [CreateToken(Trim(values[0]))] + Children(values[1..], bound);
      forall i | 0 <= i < |r| ensures r[i].kind != Identifier && WellFormed(r[i]) {
        if i > 0 {
          assert r[i] == Children(values[1..], bound)[i - 1];
        }
      }
    }
  }

  /** Braces or brackets with nothing between them give a token without
      children; with only blanks between them (the inside trims to nothing)
      the inside is one empty
      piece, which gives one `Null` child. */
  lemma EmptyContainers(str: string)
    requires |str| >= 2
    requires (str[0] == '{' && str[|str| - 1] == '}') || (str[0] == '[' && str[|str| - 1] == ']')
    requires Trim(str[1..|str| - 1]) == []
    ensures |str| == 2 ==> CreateToken(str).children == []
    ensures |str| > 2 ==> CreateToken(str).children == [Token(Null, "", [])]
  {
    var kind := GetTokenType(str);
    assert CreateToken(str) == ContainerToken(kind, str);
    EmptyInside(kind, str);
  }

  lemma EmptyInside(kind: TokenType, str: string)
    requires |str| >= 2
    requires Trim(str[1..|str| - 1]) == []
    ensures |str| == 2 ==> ContainerToken(kind, str).children == []
    ensures |str| > 2 ==> ContainerToken(kind, str).children == [Token(Null, "", [])]
  {
    var inner := Trim(str[1..|str| - 1]);
    assert inner == [];
    assert FirstTopLevel(inner, ',').None?;
    assert Elements(inner) == [[]];
    assert Trim([]) == [] by {
      assert AllIn([], Blanks);
    }
    assert CreateToken([]) == Token(Null, "", []);
  }

  /** `getKey`: the identifier of an element, or `""`. */
  function GetKey(token: Token): string {
    if token.kind != Element then []
    else if token.children == [] then []
    else if token.children[0].kind != Identifier then []
    else token.children[0].value
  }

  /** The key of a token built from text: for an element, the text before
      its first top-level `':'`, trimmed and without quotes; `""` for any
      other text. */
  lemma KeyOfCreated(str: string)
    ensures GetTokenType(str) == Element ==>
      GetKey(CreateToken(str)) == RemoveQuotes(Trim(str[..FirstTopLevel(str, ':').value]))
    ensures GetTokenType(str) != Element ==> GetKey(CreateToken(str)) == []
  {
    if GetTokenType(str) == Element {
      assert CreateToken(str) == ElementToken(str, FirstTopLevel(str, ':').value);
    } else {
      CreateTokenWellFormed(str);
    }
  }
}
