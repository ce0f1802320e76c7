/** `srcs/Utils.cpp`: the server's string helpers. They trim, split on a
    delimiter, validate IPv4 addresses, ports, URI shapes, IMF-fixdate
    timestamps and unsigned literals, and pull `key` values out of
    header-like text.

    The path building of `resourceExists` and `getAbsPath` is modelled in
    `Response`, with the filesystem as `World` fields. Not modelled:
    `getFileAsString` and `getImfFixdate` (filesystem and clock), and
    `isPositiveDoubleLiteral`, whose last check is `std::stod`. */
module Utils {
  import opened Text

  // ---------------------------------------------------------------- trimWhitespace

  /** The characters `std::isspace` accepts in the C locale. */
  const CSpaces: set<char> := {' ', '\t', '\n', '\U{0B}', '\U{0C}', '\r'}

  /** `trimWhitespace`: narrows the view from the front, then from the back,
      while the end character is white space. */
  method TrimWhitespace(sv: string) returns (r: string)
    ensures r == Strip(sv, CSpaces)
  {
    var lo, hi := 0, |sv|;
    while lo < hi && sv[lo] in CSpaces
      invariant lo <= hi == |sv| && AllIn(sv[..lo], CSpaces)
    {
      assert sv[..lo + 1] == sv[..lo] + [sv[lo]];
      lo := lo + 1;
    }
    while lo < hi && sv[hi - 1] in CSpaces
      invariant lo <= hi <= |sv| && AllIn(sv[hi..], CSpaces)
      invariant lo < |sv| ==> lo < hi && sv[lo] !in CSpaces
    {
      assert sv[hi - 1..] == [sv[hi - 1]] + sv[hi..];
      hi := hi - 1;
    }
    r := sv[lo..hi];
    if lo == hi {
      assert sv[..lo] == sv;
    } else {
      StripIs(sv, CSpaces, lo, hi);
    }
  }

  // ---------------------------------------------------------------- splitStringView

  /** The parts the search loop of `splitStringView` collects: the text up to
      the next `delim`, then the rest split the same way, and the remainder
      whole once there is no `delim` left. */
  function SplitLoop(sv: string, delim: string): seq<string>
    requires delim != [] || sv == []
    decreases |sv|
  {
    if sv == [] then []
    else
      match Find(sv, delim)
      case None => [sv]
      case Some(p) => [sv[..p]] + SplitLoop(sv[p + |delim|..], delim)
  }

  predicate EndsWith(s: string, suffix: string) {
    |s| >= |suffix| && s[|s| - |suffix|..] == suffix
  }

  /** `splitStringView(sv, delim)`: the loop's parts, and one more empty part
      when the input ends with the delimiter. */
  function Split(sv: string, delim: string): seq<string>
    requires delim != [] || sv == []
  {
    SplitLoop(sv, delim) + (if EndsWith(sv, delim) then [""] else [])
  }

  /** One turn of the loop of `splitStringView`: a part moves from what is
      left to the parts collected. */
  lemma SplitLoopStep(res: seq<string>, rest: string, delim: string)
    requires delim != [] && rest != []
    ensures Find(rest, delim).None? ==> res + SplitLoop(rest, delim) == res + [rest]
    ensures Find(rest, delim).Some? ==>
      var p := Find(rest, delim).value;
      res + SplitLoop(rest, delim) == (res + [rest[..p]]) + SplitLoop(rest[p + |delim|..], delim)
  {
  }

  /** `splitStringView`: cuts parts off the front of the view. An empty
      delimiter on a non-empty view never shrinks it (the source loops for
      ever), so callers must not pass one. */
  method SplitStringView(sv: string, delim: string) returns (res: seq<string>)
    requires delim != [] || sv == []
    ensures res == Split(sv, delim)
  {
    res := [];
    var rest := sv;
    while rest != []
      invariant delim != [] || rest == []
      invariant res + SplitLoop(rest, delim) == SplitLoop(sv, delim)
      decreases |rest|
    {
      var pos := Find(rest, delim);
      SplitLoopStep(res, rest, delim);
      if pos.None? {
        res := res + [rest];
        break;
      }
      res := res + [rest[..pos.value]];
      rest := rest[pos.value + |delim|..];
    }
    if EndsWith(sv, delim) {
      res := res + [""];
    }
  }

  /** Searching for a one-character pattern is searching for the character. */
  lemma {:induction false} FindFromSingle(s: string, c: char, from: nat)
    ensures FindFrom(s, [c], from) == FindCharFrom(s, c, from)
    decreases |s| - from
  {
    if from < |s| {
      assert s[from..from + 1] == [s[from]];
      FindFromSingle(s, c, from + 1);
    }
  }

  /** For a one-character delimiter the loop's parts are the `getline` pieces. */
  lemma {:induction false} SplitLoopSingle(s: string, c: char)
    ensures SplitLoop(s, [c]) == Pieces(s, c)
    decreases |s|
  {
    if s != [] {
      FindFromSingle(s, c, 0);
      match FindChar(s, c)
      case None =>
      case Some(i) =>
        var rest := s[i + 1..];
        SplitLoopSingle(rest, c);
        assert SplitLoop(s, [c]) == [s[..i]] + SplitLoop(rest, [c]);
        assert Pieces(s, c) == [s[..i]] + Pieces(rest, c);
    }
  }

  lemma SplitSingle(s: string, c: char)
    ensures Split(s, [c]) == Pieces(s, c) + (if FinalDelim(s, c) == [c] then [""] else [])
  {
    SplitLoopSingle(s, c);
    if s != [] {
      assert s[|s| - 1..] == [s[|s| - 1]];
    }
  }

  /** One-character delimiter: the parts joined with the delimiter give the
      input back; the empty input, and only it, gives no parts; a leading
      delimiter gives an empty first part and a trailing one an empty last
      part. */
  lemma SplitJoin(sv: string, c: char)
    ensures Join(Split(sv, [c]), [c]) == sv
    ensures Split(sv, [c]) == [] <==> sv == []
    ensures sv != [] && sv[0] == c ==> Split(sv, [c])[0] == []
    ensures sv != [] && sv[|sv| - 1] == c ==> Split(sv, [c])[|Split(sv, [c])| - 1] == []
  {
    SplitSingle(sv, c);
    PiecesJoin(sv, c);
    if sv != [] {
      PiecesNonEmpty(sv, c);
      var ps := Pieces(sv, c);
      if FinalDelim(sv, c) == [c] {
        JoinSnoc(ps, "", [c]);
        assert Join(ps, [c]) + [c] + "" == Join(ps, [c]) + FinalDelim(sv, c);
      } else {
        assert ps + [] == ps;
      }
      if sv[0] == c {
        FindCharFromIs(sv, c, 0, 0);
        assert Pieces(sv, c)[0] == sv[..0];
        assert Split(sv, [c])[0] == Pieces(sv, c)[0];
      }
    }
  }

  /** The pieces of `c`-free parts joined with `c`: all of them, except an
      empty last part, which `getline` does not return. */
  lemma {:induction false} PiecesOfJoinAll(ps: seq<string>, c: char)
    requires ps != []
    requires forall i :: 0 <= i < |ps| ==> NoChar(ps[i], c)
    ensures Pieces(Join(ps, [c]), c) == if ps[|ps| - 1] == [] then ps[..|ps| - 1] else ps
    decreases |ps|
  {
    if |ps| == 1 {
      if ps[0] != [] {
        FindCharAbsent(ps[0], c);
      }
    } else {
      var tail := ps[1..];
      var j := Join(tail, [c]);
      assert forall i :: 0 <= i < |tail| ==> NoChar(tail[i], c) by {
        forall i | 0 <= i < |tail| ensures NoChar(tail[i], c) {
          assert tail[i] == ps[i + 1];
        }
      }
      PiecesOfJoinAll(tail, c);
      assert Join(ps, [c]) == ps[0] + [c] + j;
      PiecesCons(ps[0], c, j);
      ConsPieces(ps);
      assert tail[|tail| - 1] == ps[|ps| - 1];
      if ps[|ps| - 1] == [] {
        assert Pieces(Join(ps, [c]), c) == [ps[0]] + tail[..|tail| - 1];
      } else {
        assert Pieces(Join(ps, [c]), c) == [ps[0]] + tail;
      }
    }
  }

  /** A `c`-free text, `c`, then more: the text is the first piece. */
  lemma PiecesCons(x: string, c: char, j: string)
    requires NoChar(x, c)
    ensures Pieces(x + [c] + j, c) == [x] + Pieces(j, c)
  {
    FindCharAfter(x, c, j);
    var s := x + [c] + j;
    assert s[..|x|] == x && s[|x| + 1..] == j;
  }

  lemma ConsPieces(ps: seq<string>)
    requires |ps| > 1
    ensures [ps[0]] + ps[1..][..|ps| - 2] == ps[..|ps| - 1]
    ensures [ps[0]] + ps[1..] == ps
  {
  }

  /** How joined parts end: with the last part, or with `c` when that part
      is empty and there is more than one. */
  lemma JoinEnd(ps: seq<string>, c: char)
    requires |ps| > 1
    ensures Join(ps, [c]) == Join(ps[..|ps| - 1], [c]) + [c] + ps[|ps| - 1]
  {
    assert ps == ps[..|ps| - 1] + [ps[|ps| - 1]];
    JoinSnoc(ps[..|ps| - 1], ps[|ps| - 1], [c]);
  }

  /** Conversely, splitting `c`-free parts joined with `c` gives the parts
      back, unless they are the single empty part. */
  lemma SplitOfJoin(ps: seq<string>, c: char)
    requires ps != [] && ps != [""]
    requires forall i :: 0 <= i < |ps| ==> NoChar(ps[i], c)
    ensures Split(Join(ps, [c]), [c]) == ps
  {
    PiecesOfJoinAll(ps, c);
    JoinFinal(ps, c);
    SplitFromParts(Join(ps, [c]), c, ps);
  }

  lemma SplitFromParts(s: string, c: char, ps: seq<string>)
    requires ps != []
    requires Pieces(s, c) == if ps[|ps| - 1] == [] then ps[..|ps| - 1] else ps
    requires FinalDelim(s, c) == if ps[|ps| - 1] == [] then [c] else []
    ensures Split(s, [c]) == ps
  {
    SplitSingle(s, c);
    if ps[|ps| - 1] == [] {
      assert ps == ps[..|ps| - 1] + [""];
    }
  }

  /** Joined parts end with `c` exactly when the last part is empty. */
  lemma JoinFinal(ps: seq<string>, c: char)
    requires ps != [] && ps != [""] && NoChar(ps[|ps| - 1], c)
    ensures FinalDelim(Join(ps, [c]), c) == if ps[|ps| - 1] == [] then [c] else []
  {
    if |ps| > 1 {
      JoinEnd(ps, c);
      FinalDelimAfter(Join(ps[..|ps| - 1], [c]), c, ps[|ps| - 1]);
    }
  }

  lemma FinalDelimAfter(x: string, c: char, last: string)
    requires NoChar(last, c)
    ensures FinalDelim(x + [c] + last, c) == if last == [] then [c] else []
  {
    if last != [] {
      assert (x + [c] + last)[|x| + 1 + |last| - 1] == last[|last| - 1];
    }
  }

  // ---------------------------------------------------------------- splitUri

  /** `splitUri`: the `'/'`-separated parts of a URI. */
  function SplitUri(uri: string): (parts: seq<string>)
    ensures Join(parts, "/") == uri
    ensures parts == [] <==> uri == []
  {
    SplitJoin(uri, '/');
    Split(uri, "/")
  }

  // ---------------------------------------------------------------- isValidIPv4

  /** One field of a dotted quad: non-empty, digits only, at most 255
      (`std::stoi` of a longer run of digits throws, which also rejects). */
  predicate OctetOk(s: string) {
    s != [] && AllDigits(s) && DecimalValue(s) <= 255
  }

  /** What `isValidIPv4` accepts. */
  predicate IPv4Ok(sv: string) {
    sv != [] &&
    var octets := Split(sv, ".");
    |octets| == 4 && forall i :: 0 <= i < 4 ==> OctetOk(octets[i])
  }

  /** `isValidIPv4`: splits at `'.'`, wants four fields and checks each. */
  method IsValidIPv4(sv: string) returns (ok: bool)
    ensures ok <==> IPv4Ok(sv)
  {
    if sv == [] {
      return false;
    }
    var octets := SplitStringView(sv, ".");
    if |octets| != 4 {
      return false;
    }
    var i := 0;
    while i < 4
      invariant 0 <= i <= 4
      invariant forall k :: 0 <= k < i ==> OctetOk(octets[k])
    {
      var oct := octets[i];
      if oct == [] || !AllDigits(oct) || DecimalValue(oct) > 255 {
        return false;
      }
      i := i + 1;
    }
    return true;
  }

  /** A text is a valid address exactly when it is four valid fields joined
      with `'.'`. */
  lemma IPv4IsDottedQuad(sv: string)
    ensures IPv4Ok(sv) <==>
      exists os: seq<string> :: (|os| == 4 && (forall i :: 0 <= i < 4 ==> OctetOk(os[i])) && sv == Join(os, "."))
  {
    if IPv4Ok(sv) {
      var os := Split(sv, ".");
      SplitJoin(sv, '.');
      assert sv == Join(os, ".");
    }
    if exists os: seq<string> :: |os| == 4 && (forall i :: 0 <= i < 4 ==> OctetOk(os[i])) && sv == Join(os, ".") {
      var os: seq<string> :| |os| == 4 && (forall i :: 0 <= i < 4 ==> OctetOk(os[i])) && sv == Join(os, ".");
      forall i | 0 <= i < 4 ensures NoChar(os[i], '.') {
        assert AllDigits(os[i]);
      }
      SplitOfJoin(os, '.');
      assert sv != [] by { assert |sv| >= |os[0]| + 1; }
    }
  }

  /** The decimal renderings of four numbers up to 255 form a valid address,
      and one number above 255 spoils it. */
  lemma DottedQuad(a: nat, b: nat, c: nat, d: nat)
    ensures IPv4Ok(Join([NatToString(a), NatToString(b), NatToString(c), NatToString(d)], "."))
        <==> a <= 255 && b <= 255 && c <= 255 && d <= 255
  {
    var w, x, y, z := NatToString(a), NatToString(b), NatToString(c), NatToString(d);
    QuadOf(w, x, y, z);
    assert DecimalValue(w) == a && DecimalValue(x) == b && DecimalValue(y) == c && DecimalValue(z) == d;
  }

  /** A trailing dot leaves an empty fourth field, which is refused. */
  lemma IPv4RefusesTrailingDot()
    ensures !IPv4Ok("1.1.1.")
  {
    DotFields("1.1.1.", ["1", "1", "1", ""]);
  }

  /** Five fields are refused. */
  lemma IPv4RefusesFiveFields()
    ensures !IPv4Ok("255.255.255.255.255")
  {
    DotFields("255.255.255.255.255", ["255", "255", "255", "255", "255"]);
  }

  /** `IPv4Ok` of text known to be the dotted join of `ps`. */
  lemma DotFields(sv: string, ps: seq<string>)
    requires ps != [] && ps != [""] && Join(ps, ".") == sv
    requires forall i :: 0 <= i < |ps| ==> NoChar(ps[i], '.')
    ensures IPv4Ok(sv) <==> |ps| == 4 && forall i :: 0 <= i < 4 ==> OctetOk(ps[i])
  {
    SplitOfJoin(ps, '.');
    JoinNonEmpty(ps, '.');
  }

  lemma JoinNonEmpty(ps: seq<string>, c: char)
    requires ps != [] && ps != [""]
    ensures Join(ps, [c]) != []
  {
    if |ps| > 1 {
      assert |Join(ps, [c])| >= 1;
    }
  }

  lemma QuadOf(w: string, x: string, y: string, z: string)
    requires w != [] && AllDigits(w) && x != [] && AllDigits(x)
    requires y != [] && AllDigits(y) && z != [] && AllDigits(z)
    ensures IPv4Ok(Join([w, x, y, z], ".")) <==>
      DecimalValue(w) <= 255 && DecimalValue(x) <= 255 && DecimalValue(y) <= 255 && DecimalValue(z) <= 255
  {
    var os := [w, x, y, z];
    assert os[0] == w && os[1] == x && os[2] == y && os[3] == z;
    QuadFields(os);
  }

  /** Four digit fields joined with `'.'` are a valid address exactly when
      each is at most 255. */
  lemma QuadFields(os: seq<string>)
    requires |os| == 4 && forall i :: 0 <= i < 4 ==> os[i] != [] && AllDigits(os[i])
    ensures IPv4Ok(Join(os, ".")) <==> forall i :: 0 <= i < 4 ==> DecimalValue(os[i]) <= 255
  {
    forall i | 0 <= i < 4 ensures NoChar(os[i], '.') {
      assert AllDigits(os[i]);
    }
    SplitOfJoin(os, '.');
    assert Join(os, ".") == os[0] + "." + Join(os[1..], ".");
  }

  // ---------------------------------------------------------------- isValidPort

  /** `isValidPort`: non-empty, digits only, and between 1024 and 65535
      (`std::stoul` overflow, which throws, also rejects). */
  predicate IsValidPort(sv: string) {
    sv != [] && AllDigits(sv) && 1024 <= DecimalValue(sv) <= 65535
  }

  /** The decimal rendering of a number is a valid port exactly when the
      number lies in 1024..65535; leading zeros do not matter. */
  lemma PortRange(n: nat, zeros: nat)
    ensures IsValidPort(NatToString(n)) <==> 1024 <= n <= 65535
    ensures IsValidPort(seq(zeros, _ => '0') + NatToString(n)) <==> 1024 <= n <= 65535
  {
    var r := NatToString(n);
    assert r != [] && AllDigits(r) && DecimalValue(r) == n;
    LeadingZeros(zeros, r);
    assert seq(zeros, _ => '0') + r != [] by { assert |seq(zeros, _ => '0') + r| >= |r|; }
  }

  /** Zeros in front of digits do not change their value. */
  lemma {:induction false} LeadingZeros(zeros: nat, s: string)
    requires AllDigits(s)
    ensures AllDigits(seq(zeros, _ => '0') + s)
    ensures DecimalValue(seq(zeros, _ => '0') + s) == DecimalValue(s)
    decreases |s|
  {
    var z := seq(zeros, _ => '0');
    if s == [] {
      assert z + s == z;
      ZerosValue(zeros);
    } else {
      var t := z + s;
      assert t[..|t| - 1] == z + s[..|s| - 1];
      LeadingZeros(zeros, s[..|s| - 1]);
    }
  }

  lemma {:induction false} ZerosValue(zeros: nat)
    ensures AllDigits(seq(zeros, _ => '0')) && DecimalValue(seq(zeros, _ => '0')) == 0
  {
    if zeros > 0 {
      ZerosValue(zeros - 1);
      assert seq(zeros, _ => '0')[..zeros - 1] == seq(zeros - 1, _ => '0');
    }
  }

  // ---------------------------------------------------------------- uriFormatOk

  /** Two delimiters side by side somewhere in the text. */
  predicate Doubled(s: string, c: char) {
    exists j :: 0 <= j < |s| - 1 && s[j] == c && s[j + 1] == c
  }

  /** `uriFormatOk`: splits at `'/'`, drops an empty first part and then an
      empty last part, and refuses any empty part left. */
  method UriFormatOk(uri: string) returns (ok: bool)
    ensures ok <==> uri != [] && !Doubled(uri, '/')
  {
    var split := SplitStringView(uri, "/");
    if split == [] {
      SplitJoin(uri, '/');
      return false;
    }
    ghost var parts := split;
    SplitShape(uri, '/', parts);
    var first := 0;
    if split[0] == [] {
      split := split[1..];
      first := 1;
    }
    var last := |parts|;
    if split[|split| - 1] == [] {
      split := split[..|split| - 1];
      last := |parts| - 1;
    }
    DropEnds(parts, first, last);
    assert split == parts[first..last];
    var i := 0;
    while i < |split|
      invariant 0 <= i <= |split|
      invariant forall k :: 0 <= k < i ==> split[k] != []
    {
      if split[i] == [] {
        assert !AllFilled(split);
        return false;
      }
      i := i + 1;
    }
    assert AllFilled(split);
    ok := true;
  }

  /** No part is empty. */
  predicate AllFilled(ps: seq<string>) {
    forall k :: 0 <= k < |ps| ==> ps[k] != []
  }

  /** No part between the first and the last is empty. */
  predicate InteriorFilled(ps: seq<string>) {
    forall k :: 0 < k < |ps| - 1 ==> ps[k] != []
  }

  /** Dropping an empty first part and an empty last part leaves only
      non-empty parts exactly when the interior has no empty part. */
  lemma DropEnds(parts: seq<string>, first: nat, last: nat)
    requires parts != [] && (parts[0] == [] ==> |parts| >= 2) && (parts[|parts| - 1] == [] ==> |parts| >= 2)
    requires first == (if parts[0] == [] then 1 else 0)
    requires last == (if parts[|parts| - 1] == [] then |parts| - 1 else |parts|)
    ensures first <= last
    ensures AllFilled(parts[first..last]) <==> InteriorFilled(parts)
  {
    var kept := parts[first..last];
    if AllFilled(kept) {
      forall k | 0 < k < |parts| - 1 ensures parts[k] != [] {
        assert kept[k - first] == parts[k];
      }
    }
    if InteriorFilled(parts) {
      forall k | 0 <= k < |kept| ensures kept[k] != [] {
        assert kept[k] == parts[first + k];
      }
    }
  }

  /** What `uriFormatOk` relies on: a non-empty URI whose first part is empty
      has a second part, so the last part is there to inspect; and its
      interior parts are all non-empty exactly when no `"//"` occurs. */
  lemma SplitShape(s: string, c: char, parts: seq<string>)
    requires s != [] && parts == Split(s, [c])
    ensures parts != [] && (parts[0] == [] ==> |parts| >= 2) && (parts[|parts| - 1] == [] ==> |parts| >= 2)
    ensures InteriorFilled(parts) <==> !Doubled(s, c)
  {
    var ps := Pieces(s, c);
    var fin := FinalDelim(s, c) == [c];
    SplitSingle(s, c);
    PiecesNonEmpty(s, c);
    if !fin {
      PiecesEnds(s, c);
    }
    PiecesDoubled(s, c);
    InteriorFromPieces(ps, parts, fin);
  }

  lemma InteriorFromPieces(ps: seq<string>, parts: seq<string>, fin: bool)
    requires ps != [] && parts == ps + (if fin then [""] else [])
    requires !fin ==> ps[|ps| - 1] != []
    ensures parts != [] && (parts[0] == [] ==> |parts| >= 2) && (parts[|parts| - 1] == [] ==> |parts| >= 2)
    ensures InteriorFilled(parts) <==> !exists k :: 0 < k < |ps| && ps[k] == []
  {
    assert forall k :: 0 <= k < |ps| ==> parts[k] == ps[k];
    if InteriorFilled(parts) {
      forall k | 0 < k < |ps| ensures ps[k] != [] {
        if k < |parts| - 1 {
          assert parts[k] == ps[k];
        }
      }
    }
  }

  /** The pieces of non-empty text that does not end with the delimiter:
      there is one, and the last is not empty. */
  lemma {:induction false} PiecesEnds(s: string, c: char)
    requires s != [] && s[|s| - 1] != c
    ensures Pieces(s, c) != [] && Pieces(s, c)[|Pieces(s, c)| - 1] != []
    decreases |s|
  {
    match FindChar(s, c)
    case None =>
    case Some(i) =>
      var rest := s[i + 1..];
      assert rest != [] && rest[|rest| - 1] == s[|s| - 1];
      PiecesEnds(rest, c);
      assert Pieces(s, c) == [s[..i]] + Pieces(rest, c);
  }

  /** A doubled delimiter is an empty piece after the first. */
  lemma {:induction false} PiecesDoubled(s: string, c: char)
    ensures Doubled(s, c) <==> exists k :: 0 < k < |Pieces(s, c)| && Pieces(s, c)[k] == []
    decreases |s|
  {
    if s == [] {
    } else {
      FindCharPrefix(s, c);
      match FindChar(s, c)
      case None =>
        assert !Doubled(s, c);
      case Some(i) =>
        var rest := s[i + 1..];
        var pr := Pieces(rest, c);
        PiecesDoubled(rest, c);
        DoubledAt(s, c, i);
        FirstPieceEmpty(rest, c);
        if rest != [] {
          PiecesNonEmpty(rest, c);
        }
        assert Pieces(s, c) == [s[..i]] + pr;
        PiecesShift(s[..i], pr);
        EmptyPieceSomewhere(pr);
    }
  }

  lemma EmptyPieceSomewhere(r: seq<string>)
    ensures (exists k :: 0 <= k < |r| && r[k] == []) <==>
      (r != [] && r[0] == []) || (exists k :: 0 < k < |r| && r[k] == [])
  {
  }

  /** Doubling in text cut after its first delimiter at `i`. */
  lemma DoubledAt(s: string, c: char, i: nat)
    requires i < |s| && s[i] == c && NoChar(s[..i], c)
    ensures Doubled(s, c) <==> Doubled(s[i + 1..], c) || (i + 1 < |s| && s[i + 1] == c)
  {
    var rest := s[i + 1..];
    forall k | 0 <= k < i ensures s[k] != c {
      assert s[..i][k] == s[k];
    }
    if Doubled(s, c) {
      var j :| 0 <= j < |s| - 1 && s[j] == c && s[j + 1] == c;
      if j > i {
        assert rest[j - i - 1] == c && rest[j - i] == c;
      }
    }
    if Doubled(rest, c) {
      var j :| 0 <= j < |rest| - 1 && rest[j] == c && rest[j + 1] == c;
      assert s[i + 1 + j] == c && s[i + 2 + j] == c;
    }
  }

  /** The first piece is empty exactly when the text starts with the delimiter. */
  lemma FirstPieceEmpty(s: string, c: char)
    ensures s != [] ==> (Pieces(s, c)[0] == [] <==> s[0] == c)
  {
    if s != [] {
      if s[0] == c {
        FindCharFromIs(s, c, 0, 0);
      }
    }
  }

  lemma PiecesShift(x: string, rest: seq<string>)
    ensures (exists k :: 0 < k < |[x] + rest| && ([x] + rest)[k] == []) <==>
      (exists k :: 0 <= k < |rest| && rest[k] == [])
  {
    var ps := [x] + rest;
    if exists k :: 0 < k < |ps| && ps[k] == [] {
      var k :| 0 < k < |ps| && ps[k] == [];
      assert rest[k - 1] == [];
    }
    if exists k :: 0 <= k < |rest| && rest[k] == [] {
      var k :| 0 <= k < |rest| && rest[k] == [];
      assert ps[k + 1] == [];
    }
  }

  // ---------------------------------------------------------------- uriTargetAboveRoot

  /** Number of `".."` parts. */
  function Ups(parts: seq<string>): nat
    decreases |parts|
  {
    if parts == [] then 0
    else Ups(parts[..|parts| - 1]) + (if parts[|parts| - 1] == ".." then 1 else 0)
  }

  /** Number of parts that descend: neither empty, nor `"."`, nor `".."`. */
  function Downs(parts: seq<string>): nat
    decreases |parts|
  {
    if parts == [] then 0
    else
      var p := parts[|parts| - 1];
      Downs(parts[..|parts| - 1]) + (if p != [] && p != "." && p != ".." then 1 else 0)
  }

  /** `uriTargetAboveRoot`: counts the parts that climb and the parts that
      descend, and compares the totals. */
  method UriTargetAboveRoot(uri: string) returns (above: bool)
    ensures above <==> Ups(SplitUri(uri)) > Downs(SplitUri(uri))
  {
    var parts := SplitStringView(uri, "/");
    var up, down := 0, 0;
    var i := 0;
    while i < |parts|
      invariant 0 <= i <= |parts|
      invariant up == Ups(parts[..i]) && down == Downs(parts[..i])
    {
      var p := parts[i];
      assert parts[..i + 1][..i] == parts[..i];
      if p == ".." {
        up := up + 1;
      } else if p == "." {
      } else if p != [] {
        down := down + 1;
      }
      i := i + 1;
    }
    assert parts[..i] == parts;
    above := up > down;
  }

  /** The depth of every prefix of the path: whether the walk ever climbs
      above the directory it starts in. */
  predicate EscapesRoot(parts: seq<string>) {
    exists n :: 0 <= n <= |parts| && Downs(parts[..n]) < Ups(parts[..n])
  }

  /** Corrected check: walks the parts and stops as soon as the running depth
      drops below the root. */
  method UriEscapesRoot(uri: string) returns (escapes: bool)
    ensures escapes <==> EscapesRoot(SplitUri(uri))
  {
    var parts := SplitStringView(uri, "/");
    var up, down := 0, 0;
    var i := 0;
    assert parts[..0] == [];
    while i < |parts|
      invariant 0 <= i <= |parts|
      invariant up == Ups(parts[..i]) && down == Downs(parts[..i])
      invariant forall n :: 0 <= n <= i ==> Downs(parts[..n]) >= Ups(parts[..n])
    {
      var p := parts[i];
      assert parts[..i + 1][..i] == parts[..i];
      if p == ".." {
        up := up + 1;
      } else if p == "." {
      } else if p != [] {
        down := down + 1;
      }
      i := i + 1;
      if down < up {
        return true;
      }
    }
    return false;
  }

  /** The corrected check refuses everything the original one refuses. */
  lemma AboveRootEscapes(parts: seq<string>)
    requires Ups(parts) > Downs(parts)
    ensures EscapesRoot(parts)
  {
    assert parts[..|parts|] == parts;
  }

  /** The original check compares only the totals, so a path that first
      climbs past the root and then comes back down to the same count passes
      it: `"a/../../b"` climbs to one level above the root before `"b"`. */
  lemma TotalsMissEscape()
    ensures Ups(SplitUri("a/../../b")) <= Downs(SplitUri("a/../../b"))
    ensures EscapesRoot(SplitUri("a/../../b"))
  {
    SplitExample();
    EscapeCounts();
  }

  lemma SplitExample()
    ensures SplitUri("a/../../b") == ["a", "..", "..", "b"]
  {
    var ps: seq<string> := ["a", "..", "..", "b"];
    assert Join(ps, "/") == "a/../../b";
    forall i | 0 <= i < |ps| ensures NoChar(ps[i], '/') { }
    SplitOfJoin(ps, '/');
  }

  lemma EscapeCounts()
    ensures Ups(["a", "..", "..", "b"]) <= Downs(["a", "..", "..", "b"])
    ensures EscapesRoot(["a", "..", "..", "b"])
  {
    var ps: seq<string> := ["a", "..", "..", "b"];
    var p0, p1, p2, p3 := ps[..0], ps[..1], ps[..2], ps[..3];
    assert p1[..0] == p0 && p2[..1] == p1 && p3[..2] == p2 && ps[..3] == p3;
    assert Ups(p1) == 0 && Downs(p1) == 1;
    assert Ups(p2) == 1 && Downs(p2) == 1;
    assert Ups(p3) == 2 && Downs(p3) == 1;
    assert ps[..4] == ps && ps[..3] == p3;
  }

  // ---------------------------------------------------------------- isValidImfFixdate

  const Weekdays: seq<string> := ["Mon,", "Tue,", "Wed,", "Thu,", "Fri,", "Sat,", "Sun,"]
  const Months: seq<string> := ["Jan", "Feb", "Mar", "Apr", "May", "Jun", "Jul", "Aug", "Sep", "Oct", "Nov", "Dec"]

  /** Gregorian leap years, as `std::chrono::year::is_leap` counts them. */
  predicate IsLeap(y: nat) {
    y % 4 == 0 && (y % 100 != 0 || y % 400 == 0)
  }

  /** The last valid day of month `m` (1 to 12) of year `y`. */
  function DaysIn(y: nat, m: nat): nat
    requires 1 <= m <= 12
  {
    if m == 2 then (if IsLeap(y) then 29 else 28)
    else if m == 4 || m == 6 || m == 9 || m == 11 then 30
    else 31
  }

  /** The number (1 to 12) of a month abbreviation. */
  function MonthNumber(name: string): (m: nat)
    requires name in Months
    ensures 1 <= m <= 12 && Months[m - 1] == name
  {
    if name == "Jan" then 1 else if name == "Feb" then 2 else if name == "Mar" then 3
    else if name == "Apr" then 4 else if name == "May" then 5 else if name == "Jun" then 6
    else if name == "Jul" then 7 else if name == "Aug" then 8 else if name == "Sep" then 9
    else if name == "Oct" then 10 else if name == "Nov" then 11 else 12
  }

  /** Two digits whose value is at most `limit`. */
  predicate TwoDigitsUpTo(s: string, limit: nat) {
    |s| == 2 && AllDigits(s) && DecimalValue(s) <= limit
  }

  /** The `HH:MM:SS` field. */
  predicate TimeOk(t: string) {
    var hms := Split(t, ":");
    |hms| == 3 && TwoDigitsUpTo(hms[0], 23) && TwoDigitsUpTo(hms[1], 59) && TwoDigitsUpTo(hms[2], 59)
  }

  /** What `isValidImfFixdate` accepts: six non-empty space-separated fields,
      a weekday with its comma, a day of one or two digits that exists in the
      month, a month abbreviation, a four-digit year, the time of day, and
      `GMT`. The weekday is not compared with the date. */
  predicate ImfFixdateOk(sv: string) {
    sv != [] && FixdateFieldsOk(Split(sv, " "))
  }

  /** The conditions on the six fields. */
  predicate FixdateFieldsOk(parts: seq<string>) {
    |parts| == 6 && AllFilled(parts) &&
    parts[0] in Weekdays &&
    |parts[1]| <= 2 && AllDigits(parts[1]) && 1 <= DecimalValue(parts[1]) <= 31 &&
    parts[2] in Months &&
    |parts[3]| == 4 && AllDigits(parts[3]) &&
    DecimalValue(parts[1]) <= DaysIn(DecimalValue(parts[3]), MonthNumber(parts[2])) &&
    TimeOk(parts[4]) &&
    parts[5] == "GMT"
  }

  /** `isValidImfFixdate`: checks the fields in order, finding the month with
      a loop over the table and checking the time fields with another. */
  method IsValidImfFixdate(sv: string) returns (ok: bool)
    ensures ok <==> ImfFixdateOk(sv)
  {
    if sv == [] {
      return false;
    }
    var parts := SplitStringView(sv, " ");
    if |parts| != 6 || !AllFilled(parts) || parts[0] !in Weekdays {
      return false;
    }
    if |parts[1]| > 2 || !AllDigits(parts[1]) {
      return false;
    }
    var day := DecimalValue(parts[1]);
    if day < 1 || day > 31 {
      return false;
    }
    var month := FindMonth(parts[2]);
    if month < 0 {
      return false;
    }
    if |parts[3]| != 4 || !AllDigits(parts[3]) {
      return false;
    }
    var year := DecimalValue(parts[3]);
    if day > DaysIn(year, month + 1) {
      return false;
    }
    var timeOk := IsValidTime(parts[4]);
    if !timeOk {
      return false;
    }
    if parts[5] != "GMT" {
      return false;
    }
    return true;
  }

  /** The month lookup of `isValidImfFixdate`: the index of the last
      table entry equal to `name`, or -1. */
  method FindMonth(name: string) returns (month: int)
    ensures month == -1 <==> name !in Months
    ensures month != -1 ==> MonthNumber(name) == month + 1
  {
    month := -1;
    var i := 0;
    while i < 12
      invariant 0 <= i <= 12
      invariant month == -1 <==> name !in Months[..i]
      invariant month != -1 ==> 0 <= month < 12 && Months[month] == name
    {
      if Months[i] == name {
        month := i;
      }
      i := i + 1;
    }
    assert Months[..12] == Months;
    if month != -1 {
      MonthsDistinct(month, name);
    }
  }

  /** The time checks of `isValidImfFixdate`: three non-empty `':'`-separated
      fields, each of two digits, then the ranges. */
  method IsValidTime(t: string) returns (ok: bool)
    ensures ok <==> TimeOk(t)
  {
    var hms := SplitStringView(t, ":");
    if |hms| != 3 || !AllFilled(hms) {
      return false;
    }
    var k := 0;
    while k < 3
      invariant 0 <= k <= 3
      invariant forall j :: 0 <= j < k ==> |hms[j]| == 2 && AllDigits(hms[j])
    {
      if |hms[k]| != 2 || !AllDigits(hms[k]) {
        return false;
      }
      k := k + 1;
    }
    ok := DecimalValue(hms[0]) <= 23 && DecimalValue(hms[1]) <= 59 && DecimalValue(hms[2]) <= 59;
  }

  /** The month table has no repeated name, so the index the loop finds is
      the month's number less one. */
  lemma MonthsDistinct(i: nat, name: string)
    requires i < 12 && Months[i] == name
    ensures MonthNumber(name) == i + 1
  {
  }

  /** A number below 100 as two digits, with a leading zero. */
  function Pad2(n: nat): (r: string)
    requires n < 100
    ensures |r| == 2 && AllDigits(r) && DecimalValue(r) == n
  {
    var a, b := DigitChar(n / 10), DigitChar(n % 10);
    DecimalSnoc([], a);
    DecimalSnoc([a], b);
    assert [a] + [b] == [a, b];
    [a, b]
  }

  /** A number below 10000 as four digits, with leading zeros. */
  function Pad4(n: nat): (r: string)
    requires n < 10000
    ensures |r| == 4 && AllDigits(r) && DecimalValue(r) == n
  {
    var hi, lo := Pad2(n / 100), Pad2(n % 100);
    DecimalPairs(hi, lo);
    hi + lo
  }

  /** Two digit pairs side by side. */
  lemma DecimalPairs(hi: string, lo: string)
    requires |hi| == 2 && AllDigits(hi) && |lo| == 2 && AllDigits(lo)
    ensures AllDigits(hi + lo) && DecimalValue(hi + lo) == 100 * DecimalValue(hi) + DecimalValue(lo)
  {
    DecimalSnoc([], lo[0]);
    DecimalSnoc([lo[0]], lo[1]);
    assert [lo[0]] + [lo[1]] == lo;
    DecimalSnoc(hi, lo[0]);
    DecimalSnoc(hi + [lo[0]], lo[1]);
    assert hi + lo == hi + [lo[0]] + [lo[1]];
  }

  /** Appending a digit multiplies the value by ten and adds the digit. */
  lemma DecimalSnoc(a: string, d: char)
    requires AllDigits(a) && IsDigit(d)
    ensures AllDigits(a + [d]) && DecimalValue(a + [d]) == 10 * DecimalValue(a) + DigitValue(d)
  {
    assert (a + [d])[..|a|] == a;
  }

  /** Three parts joined. */
  lemma Join3(a: string, b: string, c: string, sep: string)
    ensures Join([a, b, c], sep) == a + sep + b + sep + c
  {
    var ps := [a, b, c];
    assert ps[1..] == [b, c] && ps[1..][1..] == [c];
    assert Join(ps[1..], sep) == b + sep + c;
  }

  /** The timestamp `strftime` writes for `"%a, %d %b %Y %H:%M:%S GMT"`. */
  function ImfDate(wd: nat, d: nat, m: nat, y: nat, hh: nat, mm: nat, ss: nat): string
    requires wd < 7 && 1 <= m <= 12 && d < 100 && y < 10000 && hh < 100 && mm < 100 && ss < 100
  {
    Join([Weekdays[wd], Pad2(d), Months[m - 1], Pad4(y), Join([Pad2(hh), Pad2(mm), Pad2(ss)], ":"), "GMT"], " ")
  }

  /** Every timestamp of a real date and time is accepted, whatever weekday
      it names; and a day beyond the month's last is not. */
  lemma ImfDateAccepted(wd: nat, d: nat, m: nat, y: nat, hh: nat, mm: nat, ss: nat)
    requires wd < 7 && 1 <= m <= 12 && 1 <= d <= 31 && y < 10000
    requires hh <= 23 && mm <= 59 && ss <= 59
    ensures ImfFixdateOk(ImfDate(wd, d, m, y, hh, mm, ss)) <==> d <= DaysIn(y, m)
  {
    var t := Join([Pad2(hh), Pad2(mm), Pad2(ss)], ":");
    TimeText(hh, mm, ss);
    DateFields(Weekdays[wd], Pad2(d), Months[m - 1], Pad4(y), t);
    MonthsDistinct(m - 1, Months[m - 1]);
    FixdateFields(Weekdays[wd], Pad2(d), Months[m - 1], Pad4(y), t);
  }

  /** The time of day as `strftime` writes it is a valid, space-free field. */
  lemma TimeText(hh: nat, mm: nat, ss: nat)
    requires hh <= 23 && mm <= 59 && ss <= 59
    ensures var t := Join([Pad2(hh), Pad2(mm), Pad2(ss)], ":");
      t != [] && NoChar(t, ' ') && TimeOk(t)
  {
    TimeFields(Pad2(hh), Pad2(mm), Pad2(ss));
    Join3(Pad2(hh), Pad2(mm), Pad2(ss), ":");
    AllDigitsNoChar(Pad2(hh), ' ');
    AllDigitsNoChar(Pad2(mm), ' ');
    AllDigitsNoChar(Pad2(ss), ' ');
  }

  /** Well-formed fields pass every check except, possibly, the one on the
      length of the month. */
  lemma FixdateFields(w: string, dd: string, mo: string, yy: string, t: string)
    requires w in Weekdays && mo in Months && t != [] && TimeOk(t)
    requires |dd| == 2 && AllDigits(dd) && 1 <= DecimalValue(dd) <= 31
    requires |yy| == 4 && AllDigits(yy)
    ensures FixdateFieldsOk([w, dd, mo, yy, t, "GMT"]) <==>
      DecimalValue(dd) <= DaysIn(DecimalValue(yy), MonthNumber(mo))
  {
    var ps := [w, dd, mo, yy, t, "GMT"];
    assert AllFilled(ps) by {
      forall i | 0 <= i < 6 ensures ps[i] != [] {
      }
    }
  }

  lemma AllDigitsNoChar(s: string, c: char)
    requires AllDigits(s) && !IsDigit(c)
    ensures NoChar(s, c)
  {
  }

  /** Three digit pairs joined with `':'` split back into the pairs. */
  lemma TimeFields(h: string, m: string, s: string)
    requires |h| == 2 && AllDigits(h) && |m| == 2 && AllDigits(m) && |s| == 2 && AllDigits(s)
    ensures Split(Join([h, m, s], ":"), ":") == [h, m, s]
  {
    var ps := [h, m, s];
    forall i | 0 <= i < 3 ensures NoChar(ps[i], ':') {
      AllDigitsNoChar(ps[i], ':');
    }
    SplitOfJoin(ps, ':');
  }

  /** Six space-free fields joined with `' '` split back into the fields. */
  lemma DateFields(w: string, d: string, m: string, y: string, t: string)
    requires w in Weekdays && m in Months
    requires |d| == 2 && AllDigits(d) && |y| == 4 && AllDigits(y) && t != [] && NoChar(t, ' ')
    ensures Split(Join([w, d, m, y, t, "GMT"], " "), " ") == [w, d, m, y, t, "GMT"]
    ensures Join([w, d, m, y, t, "GMT"], " ") != []
  {
    var ps := [w, d, m, y, t, "GMT"];
    forall i | 0 <= i < 6 ensures NoChar(ps[i], ' ') {
      if i == 1 || i == 3 {
        AllDigitsNoChar(ps[i], ' ');
      }
    }
    SplitOfJoin(ps, ' ');
    assert Join(ps, " ") == w + " " + Join(ps[1..], " ");
    assert |w| == 4;
  }

  // ---------------------------------------------------------------- isUnsignedIntLiteral

  /** `std::numeric_limits<unsigned int>::max()` for a 32-bit `unsigned int`. */
  const UintMax: nat := 4294967295

  /** `isUnsignedIntLiteral`: an optional `'+'`, then at least one digit and
      nothing but digits, with a value that fits an `unsigned int`
      (`std::stoul` overflow, which throws, also rejects). */
  predicate IsUnsignedIntLiteral(sv: string) {
    sv != [] &&
    var digits := if sv[0] == '+' then sv[1..] else sv;
    digits != [] && AllDigits(digits) && DecimalValue(digits) <= UintMax
  }

  /** A decimal rendering, with or without `'+'`, is accepted exactly when
      the number fits; a sign alone, a `'-'` or any other first character
      is refused. */
  lemma UnsignedLiteralRange(n: nat, sv: string)
    ensures IsUnsignedIntLiteral(NatToString(n)) <==> n <= UintMax
    ensures IsUnsignedIntLiteral("+" + NatToString(n)) <==> n <= UintMax
    ensures IsUnsignedIntLiteral(sv) ==> sv[0] == '+' || IsDigit(sv[0])
    ensures !IsUnsignedIntLiteral("+")
  {
    var r := NatToString(n);
    assert ("+" + r)[1..] == r;
    if IsUnsignedIntLiteral(sv) && sv[0] != '+' {
      assert IsDigit(sv[0]);
    }
  }

  // ---------------------------------------------------------------- extractValue

  /** The characters that end a value. */
  const ValueStops: set<char> := {'\r', '\n', ',', ';'}

  /** `extractValue`: after the first occurrence of `key`, the text up to
      the first of `"\r\n,;"` or to the end; `""` when the key is absent. */
  function ExtractValue(source: string, key: string): (r: string)
    ensures Find(source, key).None? ==> r == []
    ensures Find(source, key).Some? ==>
      var start := Find(source, key).value + |key|;
      start + |r| <= |source| && source[start..start + |r|] == r &&
      (forall i :: 0 <= i < |r| ==> r[i] !in ValueStops) &&
      (start + |r| == |source| || source[start + |r|] in ValueStops)
  {
    match Find(source, key)
    case None => []
    case Some(pos) =>
      var start := pos + |key|;
      match FindFirstOf(source, ValueStops, start)
      case None => source[start..]
      case Some(end) =>
        assert forall i :: 0 <= i < end - start ==> source[start..end][i] == source[start + i];
        source[start..end]
  }

  /** The first stop character of a text is at one place only. */
  lemma StopUnique(x: string, n: nat, m: nat)
    requires n <= |x| && m <= |x|
    requires forall i :: 0 <= i < n ==> x[i] !in ValueStops
    requires n == |x| || x[n] in ValueStops
    requires forall i :: 0 <= i < m ==> x[i] !in ValueStops
    requires m == |x| || x[m] in ValueStops
    ensures n == m
  {
  }

  /** A key found first, followed by a value without stop characters and a
      stop character, gives that value. */
  lemma ExtractValueOf(pre: string, key: string, v: string, stop: char, post: string)
    requires Find(pre + key, key) == Some(|pre|)
    requires forall i :: 0 <= i < |v| ==> v[i] !in ValueStops
    requires stop in ValueStops
    ensures ExtractValue(pre + key + v + [stop] + post, key) == v
  {
    var rest := v + [stop] + post;
    FindExtends(pre + key, rest, key);
    Regrouped(pre + key, v, stop, post);
    ValueBeforeStop((pre + key) + rest, key, |pre| + |key|, v, stop, post);
  }

  lemma Regrouped(a: string, v: string, stop: char, post: string)
    ensures a + v + [stop] + post == a + (v + [stop] + post)
    ensures (a + (v + [stop] + post))[|a|..] == v + [stop] + post
  {
  }

  /** The value found where the text after the key is a value, a stop
      character and more. */
  lemma ValueBeforeStop(source: string, key: string, start: nat, v: string, stop: char, post: string)
    requires Find(source, key).Some? && start == Find(source, key).value + |key|
    requires start <= |source| && source[start..] == v + [stop] + post
    requires forall i :: 0 <= i < |v| ==> v[i] !in ValueStops
    requires stop in ValueStops
    ensures ExtractValue(source, key) == v
  {
    var x := source[start..];
    var r := ExtractValue(source, key);
    assert x[..|r|] == r;
    StopUnique(x, |r|, |v|);
    assert x[..|v|] == v;
  }

  /** A first occurrence stays the first when text is appended. */
  lemma FindExtends(a: string, b: string, key: string)
    requires Find(a, key).Some? && Find(a, key).value + |key| <= |a|
    ensures Find(a + b, key) == Find(a, key)
  {
    var i := Find(a, key).value;
    assert (a + b)[i..i + |key|] == a[i..i + |key|];
    forall j | 0 <= j < i ensures !OccursAt(a + b, key, j) {
      if OccursAt(a + b, key, j) {
        OccursInPrefixBack(a, b, key, j);
      }
    }
    FindFromIs(a + b, key, 0, i);
  }

  // ---------------------------------------------------------------- extractQuotedValue

  /** `extractQuotedValue`: after the first occurrence of `key`, the text
      between the next two `'"'`; `""` when the key or either quote is
      missing. */
  function ExtractQuotedValue(source: string, key: string): (r: string)
    ensures NoChar(r, '"')
    ensures Find(source, key).None? ==> r == []
  {
    match Find(source, key)
    case None => []
    case Some(pos) => QuotedFrom(source, pos + |key|)
  }

  /** The text between the first two `'"'` at or after `start`, or `""`. */
  function QuotedFrom(source: string, start: nat): (r: string)
    ensures NoChar(r, '"')
  {
    match FindCharFrom(source, '"', start)
    case None => []
    case Some(qs) =>
      match FindCharFrom(source, '"', qs + 1)
      case None => []
      case Some(qe) =>
        FindCharFromSkips(source, '"', qs + 1);
        source[qs + 1..qe]
  }

  /** A key found first, then text without quotes, then a quoted value
      gives that value. */
  lemma ExtractQuotedValueOf(pre: string, key: string, gap: string, v: string, post: string)
    requires Find(pre + key, key) == Some(|pre|)
    requires NoChar(gap, '"') && NoChar(v, '"')
    ensures ExtractQuotedValue(pre + key + (gap + "\"" + (v + "\"" + post)), key) == v
  {
    var tail := gap + "\"" + (v + "\"" + post);
    KeyThenTail(pre, key, tail);
    QuotedAfterKey(pre + key + tail, |pre|, key, gap, v, post);
  }

  /** The key found at `pos`, then quote-free text, then the quoted value. */
  lemma QuotedAfterKey(source: string, pos: nat, key: string, gap: string, v: string, post: string)
    requires Find(source, key) == Some(pos) && pos + |key| <= |source|
    requires source[pos + |key|..] == gap + "\"" + (v + "\"" + post)
    requires NoChar(gap, '"') && NoChar(v, '"')
    ensures ExtractQuotedValue(source, key) == v
  {
    var start := pos + |key|;
    QuotedBetween(source, start, gap, v, post);
    QuotedFromIs(source, start, start + |gap|, start + |gap| + 1 + |v|);
  }

  /** Without a quote after the key the result is empty. */
  lemma ExtractQuotedValueUnquoted(pre: string, key: string, tail: string)
    requires Find(pre + key, key) == Some(|pre|)
    requires NoChar(tail, '"')
    ensures ExtractQuotedValue(pre + key + tail, key) == []
  {
    KeyThenTail(pre, key, tail);
    FindCharFromNone(pre + key + tail, '"', |pre| + |key|);
  }

  /** An opening quote after the key without a closing one: the result is
      empty. */
  lemma ExtractQuotedValueUnclosed(pre: string, key: string, gap: string, tail: string)
    requires Find(pre + key, key) == Some(|pre|)
    requires NoChar(gap, '"') && NoChar(tail, '"')
    ensures ExtractQuotedValue(pre + key + (gap + "\"" + tail), key) == []
  {
    var source := pre + key + (gap + "\"" + tail);
    var start := |pre| + |key|;
    KeyThenTail(pre, key, gap + "\"" + tail);
    QuoteAfter(source, start, gap, tail);
    var after := start + |gap| + 1;
    assert forall j :: after <= j < |source| ==> source[j] == source[after..][j - after];
    FindCharFromNone(source, '"', after);
  }

  lemma QuotedFromIs(source: string, start: nat, qs: nat, qe: nat)
    requires FindCharFrom(source, '"', start) == Some(qs)
    requires FindCharFrom(source, '"', qs + 1) == Some(qe)
    ensures QuotedFrom(source, start) == source[qs + 1..qe]
  {
  }

  /** Text appended after a first occurrence of the key. */
  lemma KeyThenTail(pre: string, key: string, tail: string)
    requires Find(pre + key, key) == Some(|pre|)
    ensures Find(pre + key + tail, key) == Some(|pre|)
    ensures (pre + key + tail)[|pre| + |key|..] == tail
  {
    FindExtends(pre + key, tail, key);
  }

  /** The two quotes that follow quote-free text at `start`. */
  lemma QuotedBetween(source: string, start: nat, gap: string, v: string, post: string)
    requires start <= |source| && source[start..] == gap + "\"" + (v + "\"" + post)
    requires NoChar(gap, '"') && NoChar(v, '"')
    ensures FindCharFrom(source, '"', start) == Some(start + |gap|)
    ensures FindCharFrom(source, '"', start + |gap| + 1) == Some(start + |gap| + 1 + |v|)
    ensures source[start + |gap| + 1..start + |gap| + 1 + |v|] == v
  {
    QuoteAfter(source, start, gap, v + "\"" + post);
    QuoteAfter(source, start + |gap| + 1, v, post);
  }

  /** The quote after quote-free text at `start`, and what surrounds it. */
  lemma QuoteAfter(source: string, start: nat, gap: string, rest: string)
    requires start <= |source| && source[start..] == gap + "\"" + rest
    requires NoChar(gap, '"')
    ensures FindCharFrom(source, '"', start) == Some(start + |gap|)
    ensures source[start..start + |gap|] == gap
    ensures source[start + |gap| + 1..] == rest
  {
    var p, t := source[..start], source[start..];
    assert source == p + t;
    FindCharFromIs(t, '"', 0, |gap|);
    FindCharShift(p, t, '"', 0);
    assert source[start + |gap| + 1..] == t[|gap| + 1..];
    assert source[start..start + |gap|] == t[..|gap|];
  }
}
