/** Shared string vocabulary of the server and its CGI scripts: optional values,
    decimal rendering, substring search in the style of `std::string::find`,
    joining, lexicographic order of `std::map` keys, leftmost non-overlapping
    replacement, and the UTF-8 length of a text. */
module Text {

  datatype Option<T> = None | Some(value: T)

  // ---------------------------------------------------------------- characters

  predicate IsDigit(c: char) { '0' <= c <= '9' }

  predicate AllDigits(s: string) { forall i :: 0 <= i < |s| ==> IsDigit(s[i]) }

  /** `std::isspace` in the C locale. */
  predicate IsSpace(c: char) {
    c == ' ' || c == '\t' || c == '\n' || c == '\U{0B}' || c == '\U{0C}' || c == '\r'
  }

  predicate NoChar(s: string, c: char) { forall i :: 0 <= i < |s| ==> s[i] != c }

  lemma NoCharConcat(a: string, b: string, c: char)
    requires NoChar(a, c) && NoChar(b, c)
    ensures NoChar(a + b, c)
  {
    assert forall i :: |a| <= i < |a + b| ==> (a + b)[i] == b[i - |a|];
  }

  function LowerChar(c: char): char {
    if 'A' <= c <= 'Z' then (c as int + 32) as char else c
  }

  function UpperChar(c: char): char {
    if 'a' <= c <= 'z' then (c as int - 32) as char else c
  }

  /** ASCII lower-casing, as `std::tolower` and PHP's `strtolower` do it. */
  function Lower(s: string): (r: string)
    ensures |r| == |s| && forall i :: 0 <= i < |s| ==> r[i] == LowerChar(s[i])
  {
    seq(|s|, i requires 0 <= i < |s| => LowerChar(s[i]))
  }

  /** ASCII upper-casing, as `std::toupper` and PHP's `strtoupper` do it. */
  function Upper(s: string): (r: string)
    ensures |r| == |s| && forall i :: 0 <= i < |s| ==> r[i] == UpperChar(s[i])
  {
    seq(|s|, i requires 0 <= i < |s| => UpperChar(s[i]))
  }

  // ---------------------------------------------------------------- trimming

  predicate AllIn(s: string, cs: set<char>) { forall i :: 0 <= i < |s| ==> s[i] in cs }

  /** Number of leading characters of `s` that belong to `cs`. */
  function LeadCount(s: string, cs: set<char>): (n: nat)
    ensures n <= |s| && AllIn(s[..n], cs) && (n < |s| ==> s[n] !in cs)
    decreases |s|
  {
    if s == [] || s[0] !in cs then 0
    else
      var n := 1 + LeadCount(s[1..], cs);
      assert s[..n] == [s[0]] + s[1..][..n - 1];
      n
  }

  /** Number of trailing characters of `s` that belong to `cs`. */
  function TrailCount(s: string, cs: set<char>): (n: nat)
    ensures n <= |s| && AllIn(s[|s| - n..], cs) && (n < |s| ==> s[|s| - n - 1] !in cs)
  {
    TrailCountTo(s, cs, |s|)
  }

  /** Number of characters of `cs` that end `s[..e]`. */
  function TrailCountTo(s: string, cs: set<char>, e: nat): (n: nat)
    requires e <= |s|
    ensures n <= e && (forall i :: e - n <= i < e ==> s[i] in cs) && (n < e ==> s[e - n - 1] !in cs)
    decreases e
  {
    if e == 0 || s[e - 1] !in cs then 0 else 1 + TrailCountTo(s, cs, e - 1)
  }

  /** `s` with every leading and trailing character of `cs` removed: the
      longest slice that neither starts nor ends with one of them, and the
      empty string when `s` has nothing else. */
  function Strip(s: string, cs: set<char>): (r: string)
    ensures AllIn(s, cs) <==> r == []
    ensures r != [] ==> r[0] !in cs && r[|r| - 1] !in cs
    ensures exists a :: 0 <= a <= |s| - |r| && r == s[a..a + |r|] && AllIn(s[..a], cs) && AllIn(s[a + |r|..], cs)
  {
    var a := LeadCount(s, cs);
    if a == |s| then
      assert s[..a] == s && s[a..a] == [];
      []
    else
      var t := TrailCount(s, cs);
      assert t < |s| - a;
      var r := s[a..|s| - t];
      assert !AllIn(s, cs) by { assert s[a] !in cs; }
      assert r == s[a..a + |r|];
      r
  }

  /** `Strip` is pinned down by where the kept slice starts and ends. */
  lemma StripIs(s: string, cs: set<char>, a: nat, b: nat)
    requires a <= b <= |s| && AllIn(s[..a], cs) && AllIn(s[b..], cs)
    requires a < b && s[a] !in cs && s[b - 1] !in cs
    ensures Strip(s, cs) == s[a..b]
  {
    var n := LeadCount(s, cs);
    assert n == a by {
      assert forall i :: 0 <= i < n ==> s[i] == s[..n][i];
      assert forall i :: 0 <= i < a ==> s[i] == s[..a][i];
    }
    var t := TrailCount(s, cs);
    assert t == |s| - b by {
      assert forall i :: |s| - t <= i < |s| ==> s[i] == s[|s| - t..][i - (|s| - t)];
      assert forall i :: b <= i < |s| ==> s[i] == s[b..][i - b];
    }
  }

  // ---------------------------------------------------------------- decimal numbers

  function DigitValue(c: char): nat
    requires IsDigit(c)
  {
    c as int - '0' as int
  }

  function DigitChar(d: nat): char
    requires d < 10
  {
    ('0' as int + d) as char
  }

  /** The value of a string of decimal digits (the empty string is 0). */
  function DecimalValue(s: string): nat
    requires AllDigits(s)
    decreases |s|
  {
    if s == [] then 0 else 10 * DecimalValue(s[..|s| - 1]) + DigitValue(s[|s| - 1])
  }

  /** `std::to_string` of a `size_t`, Python's `str` of a non-negative int:
      the shortest decimal rendering, which reads back as the same number. */
  function NatToString(n: nat): (r: string)
    ensures |r| > 0 && AllDigits(r) && DecimalValue(r) == n
    ensures r[0] == '0' ==> r == "0"
    decreases n
  {
    if n < 10 then [DigitChar(n)]
    else
      var r := NatToString(n / 10) + [DigitChar(n % 10)];
      assert r[..|r| - 1] == NatToString(n / 10);
      r
  }

  /** Python's `str` of an int. */
  function IntToString(n: int): (r: string)
    ensures |r| > 0
    ensures n >= 0 ==> r == NatToString(n)
    ensures n < 0 ==> r == "-" + NatToString(-n)
  {
    if n >= 0 then NatToString(n) else "-" + NatToString(-n)
  }

  /** Two renderings that read back the same are the same rendering. */
  lemma NatToStringInjective(m: nat, n: nat)
    ensures NatToString(m) == NatToString(n) <==> m == n
  {
  }

  // ---------------------------------------------------------------- search

  /** `pat` occurs in `s` starting at index `i`. */
  predicate OccursAt(s: string, pat: string, i: int) {
    0 <= i && i + |pat| <= |s| && s[i..i + |pat|] == pat
  }

  predicate Contains(s: string, pat: string) {
    exists i :: 0 <= i <= |s| && OccursAt(s, pat, i)
  }

  /** `s.find(pat, from)`: the first occurrence of `pat` at or after `from`,
      `None` standing for `npos`. */
  function FindFrom(s: string, pat: string, from: nat): (r: Option<nat>)
    ensures r.Some? ==> from <= r.value && OccursAt(s, pat, r.value)
    ensures forall j :: from <= j && (r.None? || j < r.value) ==> !OccursAt(s, pat, j)
    decreases |s| - from
  {
    if from + |pat| > |s| then None
    else if s[from..from + |pat|] == pat then Some(from)
    else FindFrom(s, pat, from + 1)
  }

  function Find(s: string, pat: string): (r: Option<nat>)
    ensures r.None? <==> !Contains(s, pat)
    ensures r.Some? ==> OccursAt(s, pat, r.value) && forall j :: 0 <= j < r.value ==> !OccursAt(s, pat, j)
  {
    FindFrom(s, pat, 0)
  }

  /** The first occurrence is determined by its two defining properties. */
  lemma FindFromIs(s: string, pat: string, from: nat, i: nat)
    requires from <= i && OccursAt(s, pat, i)
    requires forall j :: from <= j < i ==> !OccursAt(s, pat, j)
    ensures FindFrom(s, pat, from) == Some(i)
  {
  }

  lemma FindFromNone(s: string, pat: string, from: nat)
    requires forall j :: from <= j ==> !OccursAt(s, pat, j)
    ensures FindFrom(s, pat, from) == None
  {
  }

  /** `s.find(c, from)` for a single character `c`. */
  function FindCharFrom(s: string, c: char, from: nat): (r: Option<nat>)
    ensures r.Some? ==> from <= r.value < |s| && s[r.value] == c
    decreases |s| - from
  {
    if from >= |s| then None
    else if s[from] == c then Some(from)
    else FindCharFrom(s, c, from + 1)
  }

  /** `s.find(c)`. */
  function FindChar(s: string, c: char): Option<nat> {
    FindCharFrom(s, c, 0)
  }

  /** Nothing before the hit, and nothing at all when there is none, is `c`. */
  lemma {:induction false} FindCharFromSkips(s: string, c: char, from: nat)
    ensures var r := FindCharFrom(s, c, from);
      forall j :: from <= j < |s| && (r.None? || j < r.value) ==> s[j] != c
    decreases |s| - from
  {
    if from < |s| && s[from] != c {
      FindCharFromSkips(s, c, from + 1);
    }
  }

  lemma {:induction false} FindCharFromIs(s: string, c: char, from: nat, i: nat)
    requires from <= i < |s| && s[i] == c
    requires forall j :: from <= j < i ==> s[j] != c
    ensures FindCharFrom(s, c, from) == Some(i)
    decreases i - from
  {
    if from < i {
      FindCharFromIs(s, c, from + 1, i);
    }
  }

  lemma {:induction false} FindCharFromNone(s: string, c: char, from: nat)
    requires forall j :: from <= j < |s| ==> s[j] != c
    ensures FindCharFrom(s, c, from) == None
    decreases |s| - from
  {
    if from < |s| {
      FindCharFromNone(s, c, from + 1);
    }
  }

  /** Searching after a prefix is searching the rest. */
  lemma {:induction false} FindCharShift(p: string, s: string, c: char, i: nat)
    ensures FindCharFrom(p + s, c, |p| + i) ==
      match FindCharFrom(s, c, i) case None => None case Some(k) => Some(|p| + k)
    decreases |s| - i
  {
    if i < |s| {
      assert (p + s)[|p| + i] == s[i];
      if s[i] != c {
        FindCharShift(p, s, c, i + 1);
      }
    }
  }

  /** The first `c` of `NoChar` text followed by `c`. */
  lemma FindCharAfter(a: string, c: char, b: string)
    requires NoChar(a, c)
    ensures FindChar(a + [c] + b, c) == Some(|a|)
  {
    var s := a + [c] + b;
    assert forall j :: 0 <= j < |a| ==> s[j] == a[j];
    FindCharFromIs(s, c, 0, |a|);
  }

  /** Text without `c` has no hit. */
  lemma FindCharAbsent(a: string, c: char)
    requires NoChar(a, c)
    ensures FindChar(a, c) == None
  {
    FindCharFromNone(a, c, 0);
  }

  /** The text before the first `c` holds no `c`. */
  lemma FindCharPrefix(s: string, c: char)
    ensures FindChar(s, c).Some? ==> NoChar(s[..FindChar(s, c).value], c)
    ensures FindChar(s, c).None? ==> NoChar(s, c)
  {
    FindCharFromSkips(s, c, 0);
    if FindChar(s, c).Some? {
      var k := FindChar(s, c).value;
      assert forall j :: 0 <= j < k ==> s[..k][j] == s[j];
    }
  }

  /** A slice of a suffix is a slice of the whole. */
  lemma SliceOfSuffix(s: string, k: nat, i: nat, j: nat)
    requires k <= |s| && i <= j <= |s| - k
    ensures s[k..][i..j] == s[k + i..k + j]
    ensures s[k..][i..] == s[k + i..]
  {
  }

  /** The next occurrence at or after `k` is the first occurrence in the suffix from `k`. */
  lemma FindInSuffix(s: string, k: nat, pat: string)
    requires k <= |s|
    ensures FindFrom(s[k..], pat, 0) == match FindFrom(s, pat, k) case None => None case Some(i) => Some(i - k)
  {
    var r := FindFrom(s, pat, k);
    if r.Some? {
      var i := r.value;
      OccursShift(s, k, pat, i - k);
      forall j | 0 <= j < i - k ensures !OccursAt(s[k..], pat, j) {
        OccursShift(s, k, pat, j);
      }
      FindFromIs(s[k..], pat, 0, i - k);
    } else {
      forall j | 0 <= j ensures !OccursAt(s[k..], pat, j) {
        OccursShift(s, k, pat, j);
      }
      FindFromNone(s[k..], pat, 0);
    }
  }

  /** An occurrence in a suffix is an occurrence in the whole text, shifted. */
  lemma OccursShift(s: string, k: nat, pat: string, j: nat)
    requires k <= |s|
    ensures OccursAt(s[k..], pat, j) <==> OccursAt(s, pat, k + j)
  {
    if j + |pat| <= |s| - k {
      assert s[k..][j..j + |pat|] == s[k + j..k + j + |pat|];
    }
  }

  /** After a prefix holding no occurrence, the first occurrence is the
      first one in the rest, shifted. */
  lemma FindAfterPrefix(s: string, k: nat, pat: string)
    requires k <= |s|
    requires forall j :: 0 <= j < k ==> !OccursAt(s, pat, j)
    ensures Find(s[k..], pat).None? ==> Find(s, pat).None?
    ensures Find(s[k..], pat).Some? ==> Find(s, pat) == Some(k + Find(s[k..], pat).value)
  {
    var f := Find(s[k..], pat);
    if f.Some? {
      OccursShift(s, k, pat, f.value);
      forall j | k <= j < k + f.value ensures !OccursAt(s, pat, j) {
        OccursShift(s, k, pat, j - k);
      }
      FindFromIs(s, pat, 0, k + f.value);
    } else {
      forall j | k <= j ensures !OccursAt(s, pat, j) {
        OccursShift(s, k, pat, j - k);
      }
      FindFromNone(s, pat, 0);
    }
  }

  /** An occurrence entirely inside a prefix is found in the whole string too. */
  lemma OccursInPrefix(a: string, b: string, pat: string, i: int)
    requires OccursAt(a, pat, i)
    ensures OccursAt(a + b, pat, i)
  {
    assert (a + b)[i..i + |pat|] == a[i..i + |pat|];
  }

  /** An occurrence of `pat` in `a + b` that ends inside `a` is an occurrence in `a`. */
  lemma OccursInPrefixBack(a: string, b: string, pat: string, i: int)
    requires OccursAt(a + b, pat, i) && i + |pat| <= |a|
    ensures OccursAt(a, pat, i)
  {
    assert (a + b)[i..i + |pat|] == a[i..i + |pat|];
  }

  /** `s.find_first_of(chars, from)`. */
  function FindFirstOf(s: string, chars: set<char>, from: nat): (r: Option<nat>)
    ensures r.Some? ==> from <= r.value < |s| && s[r.value] in chars
    ensures forall j :: from <= j < |s| && (r.None? || j < r.value) ==> s[j] !in chars
    decreases |s| - from
  {
    if from >= |s| then None
    else if s[from] in chars then Some(from)
    else FindFirstOf(s, chars, from + 1)
  }

  // ---------------------------------------------------------------- joining

  /** The parts with `sep` between each neighbouring pair. */
  function Join(parts: seq<string>, sep: string): string
    decreases |parts|
  {
    if |parts| == 0 then []
    else if |parts| == 1 then parts[0]
    else parts[0] + sep + Join(parts[1..], sep)
  }

  lemma {:induction false} JoinSnoc(parts: seq<string>, p: string, sep: string)
    requires |parts| > 0
    ensures Join(parts + [p], sep) == Join(parts, sep) + sep + p
    decreases |parts|
  {
    if |parts| == 1 {
      assert parts + [p] == [parts[0], p];
      assert (parts + [p])[1..] == [p];
    } else {
      assert (parts + [p])[1..] == parts[1..] + [p];
      JoinSnoc(parts[1..], p, sep);
    }
  }

  // ---------------------------------------------------------------- getline pieces

  /** The pieces repeated `std::getline(stream, piece, c)` extracts from
      `s`: the `c`-free stretches, where a final `c` does not start an empty
      last piece and the empty text gives none. */
  function Pieces(s: string, c: char): seq<string>
    decreases |s|
  {
    if s == [] then []
    else
      match FindChar(s, c)
      case None => [s]
      case Some(i) => [s[..i]] + Pieces(s[i + 1..], c)
  }

  /** The `c` a text ends with, if it ends with one. */
  function FinalDelim(s: string, c: char): string {
    if s != [] && s[|s| - 1] == c then [c] else []
  }

  /** Put back together with `c`, the pieces give the text, apart from one
      final `c`. */
  lemma {:induction false} PiecesJoin(s: string, c: char)
    ensures Join(Pieces(s, c), [c]) + FinalDelim(s, c) == s
    decreases |s|
  {
    if s != [] {
      match FindChar(s, c)
      case None =>
        PiecesJoinWhole(s, c);
      case Some(i) =>
        PiecesJoin(s[i + 1..], c);
        PiecesJoinAt(s, c, i);
    }
  }

  /** A text without `c` is one piece. */
  lemma PiecesJoinWhole(s: string, c: char)
    requires s != [] && FindChar(s, c) == None
    ensures Join(Pieces(s, c), [c]) + FinalDelim(s, c) == s
  {
    FindCharPrefix(s, c);
    assert s[|s| - 1] != c;
  }

  /** The first piece ends at the first `c`; the rest is split the same way. */
  lemma PiecesJoinAt(s: string, c: char, i: nat)
    requires FindChar(s, c) == Some(i) && i < |s|
    requires Join(Pieces(s[i + 1..], c), [c]) + FinalDelim(s[i + 1..], c) == s[i + 1..]
    ensures Join(Pieces(s, c), [c]) + FinalDelim(s, c) == s
  {
    var x, rest := s[..i], s[i + 1..];
    assert Pieces(s, c) == [x] + Pieces(rest, c);
    SplitAround(s, i);
    if rest == [] {
      JoinLast(s, c, x);
    } else {
      PiecesNonEmpty(rest, c);
      JoinCons(x, Pieces(rest, c), [c]);
      JoinMid(s, c, x, rest, Join(Pieces(rest, c), [c]));
    }
  }

  lemma SplitAround(s: string, i: nat)
    requires i < |s|
    ensures s == s[..i] + [s[i]] + s[i + 1..]
  {
  }

  lemma JoinLast(s: string, c: char, x: string)
    requires s == x + [c] + []
    ensures Join([x] + [], [c]) + FinalDelim(s, c) == s
  {
    assert [x] + [] == [x];
  }

  lemma JoinMid(s: string, c: char, x: string, rest: string, j: string)
    requires s == x + [c] + rest && rest != [] && j + FinalDelim(rest, c) == rest
    ensures x + [c] + j + FinalDelim(s, c) == s
  {
    assert s[|s| - 1] == rest[|rest| - 1];
  }

  lemma PiecesNonEmpty(s: string, c: char)
    requires s != []
    ensures Pieces(s, c) != []
  {
  }

  lemma JoinCons(x: string, parts: seq<string>, sep: string)
    requires parts != []
    ensures Join([x] + parts, sep) == x + sep + Join(parts, sep)
  {
    assert ([x] + parts)[1..] == parts;
  }

  /** The pieces hold no `c`. */
  lemma {:induction false} PiecesNoDelim(s: string, c: char)
    ensures forall i :: 0 <= i < |Pieces(s, c)| ==> NoChar(Pieces(s, c)[i], c)
    decreases |s|
  {
    if s != [] {
      FindCharPrefix(s, c);
      match FindChar(s, c)
      case None =>
      case Some(i) =>
        var rest := s[i + 1..];
        PiecesNoDelim(rest, c);
        var ps := Pieces(s, c);
        assert ps == [s[..i]] + Pieces(rest, c);
        forall k | 0 <= k < |ps| ensures NoChar(ps[k], c) {
          if k > 0 { assert ps[k] == Pieces(rest, c)[k - 1]; }
        }
    }
  }

  /** Conversely, `c`-free parts joined with `c` come back as the same
      parts, provided the last one is not empty. */
  lemma {:induction false} PiecesOfJoin(ps: seq<string>, c: char)
    requires ps != [] && ps[|ps| - 1] != []
    requires forall i :: 0 <= i < |ps| ==> NoChar(ps[i], c)
    ensures Pieces(Join(ps, [c]), c) == ps
    decreases |ps|
  {
    if |ps| == 1 {
      FindCharAbsent(ps[0], c);
    } else {
      PiecesOfJoin(ps[1..], c);
      PiecesCons(ps[0], c, Join(ps[1..], [c]));
      assert ps == [ps[0]] + ps[1..];
    }
  }

  /** A `c`-free part and a `c` in front of a text add that part in front of
      the text's pieces. */
  lemma PiecesCons(a: string, c: char, b: string)
    requires NoChar(a, c)
    ensures Pieces(a + [c] + b, c) == [a] + Pieces(b, c)
  {
    FindCharAfter(a, c, b);
    var s := a + [c] + b;
    assert s[..|a|] == a && s[|a| + 1..] == b;
  }

  // ---------------------------------------------------------------- lexicographic order

  /** `std::string` ordering: lexicographic on character codes (the keys of
      `std::map<std::string, …>` are visited in this order). */
  predicate LexLe(a: string, b: string)
    decreases |a|
  {
    |a| == 0 || (|b| > 0 && (a[0] < b[0] || (a[0] == b[0] && LexLe(a[1..], b[1..]))))
  }

  lemma {:induction false} LexLeReflexive(a: string)
    ensures LexLe(a, a)
    decreases |a|
  {
    if |a| > 0 {
      LexLeReflexive(a[1..]);
    }
  }

  lemma {:induction false} LexLeTotal(a: string, b: string)
    ensures LexLe(a, b) || LexLe(b, a)
    decreases |a|
  {
    if |a| > 0 && |b| > 0 && a[0] == b[0] {
      LexLeTotal(a[1..], b[1..]);
    }
  }

  lemma {:induction false} LexLeAntisymmetric(a: string, b: string)
    requires LexLe(a, b) && LexLe(b, a)
    ensures a == b
    decreases |a|
  {
    if |a| > 0 {
      LexLeAntisymmetric(a[1..], b[1..]);
      assert a == [a[0]] + a[1..] && b == [b[0]] + b[1..];
    }
  }

  lemma {:induction false} LexLeTransitive(a: string, b: string, c: string)
    requires LexLe(a, b) && LexLe(b, c)
    ensures LexLe(a, c)
    decreases |a|
  {
    if |a| > 0 && a[0] == b[0] && b[0] == c[0] {
      LexLeTransitive(a[1..], b[1..], c[1..]);
    }
  }

  predicate IsLeast(k: string, s: set<string>) {
    k in s && forall j :: j in s ==> LexLe(k, j)
  }

  lemma {:induction false} LeastExists(s: set<string>)
    requires s != {}
    ensures exists k :: IsLeast(k, s)
    decreases |s|
  {
    var x :| x in s;
    if s - {x} == {} {
      assert s == {x};
      LexLeReflexive(x);
      assert IsLeast(x, s);
    } else {
      LeastExists(s - {x});
      var m :| IsLeast(m, s - {x});
      LexLeTotal(m, x);
      if LexLe(m, x) {
        assert IsLeast(m, s);
      } else {
        forall j | j in s ensures LexLe(x, j) {
          if j != x { LexLeTransitive(x, m, j); } else { LexLeReflexive(x); }
        }
        assert IsLeast(x, s);
      }
    }
  }

  lemma LeastUnique(s: set<string>)
    ensures forall a, b :: IsLeast(a, s) && IsLeast(b, s) ==> a == b
  {
    forall a, b | IsLeast(a, s) && IsLeast(b, s) ensures a == b {
      LexLeAntisymmetric(a, b);
    }
  }

  /** The keys of a `std::map` in iteration order: every key once, ascending
      (see `SortedKeysOrdered`). */
  function SortedKeys(s: set<string>): (r: seq<string>)
    ensures |r| == |s|
    ensures forall k :: k in s <==> k in r
    decreases |s|
  {
    if s == {} then []
    else
      LeastExists(s);
      LeastUnique(s);
      var k :| IsLeast(k, s);
      var rest := SortedKeys(s - {k});
      assert |s - {k}| == |s| - 1;
      [k] + rest
  }

  /** Each element comes strictly before the elements after it. */
  predicate StrictlyAscending(r: seq<string>) {
    forall i, j {:trigger Precedes(r, i, j)} :: 0 <= i < j < |r| ==> Precedes(r, i, j)
  }

  /** Element `i` comes strictly before element `j`. */
  predicate Precedes(r: seq<string>, i: nat, j: nat)
    requires i < |r| && j < |r|
  {
    LexLe(r[i], r[j]) && r[i] != r[j]
  }

  /** Each key comes strictly before the keys after it. */
  lemma {:induction false} SortedKeysOrdered(s: set<string>)
    ensures StrictlyAscending(SortedKeys(s))
    decreases |s|
  {
    if s != {} {
      LeastExists(s);
      LeastUnique(s);
      var k :| IsLeast(k, s);
      var rest := SortedKeys(s - {k});
      SortedKeysOrdered(s - {k});
      var r := SortedKeys(s);
      assert r == [k] + rest;
      forall i, j | 0 <= i < j < |r| ensures Precedes(r, i, j) {
        if i > 0 {
          assert r[i] == rest[i - 1] && r[j] == rest[j - 1];
          assert Precedes(rest, i - 1, j - 1);
        } else {
          assert r[j] == rest[j - 1];
          assert rest[j - 1] in s - {k};
          assert LexLe(k, rest[j - 1]);
        }
      }
    }
  }

  // ---------------------------------------------------------------- replacement

  /** Leftmost, non-overlapping replacement of every `from` by `to`: Python's
      `str.replace`, PHP's `str_replace` with one search string. Inserted text is
      never searched again. Every caller searches for a non-empty text; for an
      empty `from` the model leaves the text as it is. */
  function ReplaceAll(s: string, from: string, to: string): string
    decreases |s|
  {
    if from == [] || |s| < |from| then s
    else if s[..|from|] == from then to + ReplaceAll(s[|from|..], from, to)
    else [s[0]] + ReplaceAll(s[1..], from, to)
  }

  /** How many occurrences `ReplaceAll` replaces. */
  function ReplaceCount(s: string, from: string): nat
    decreases |s|
  {
    if from == [] || |s| < |from| then 0
    else if s[..|from|] == from then 1 + ReplaceCount(s[|from|..], from)
    else ReplaceCount(s[1..], from)
  }

  /** Occurrences in `s[1..]` are the occurrences in `s` one place later. */
  lemma OccursAtTail(s: string, pat: string, j: nat)
    requires |s| > 0
    ensures OccursAt(s[1..], pat, j) <==> OccursAt(s, pat, j + 1)
  {
    if j + |pat| <= |s| - 1 {
      assert s[1..][j..j + |pat|] == s[j + 1..j + 1 + |pat|];
    }
  }

  /** Dropping the first character moves the first occurrence one place
      earlier. */
  lemma NoneBeforeTail(s: string, pat: string, i: nat)
    requires 0 < i && OccursAt(s, pat, i)
    requires forall j :: 0 <= j < i ==> !OccursAt(s, pat, j)
    ensures OccursAt(s[1..], pat, i - 1)
    ensures forall j :: 0 <= j < i - 1 ==> !OccursAt(s[1..], pat, j)
  {
    forall j | 0 <= j < i - 1 ensures !OccursAt(s[1..], pat, j) {
      OccursAtTail(s, pat, j);
    }
    OccursAtTail(s, pat, i - 1);
  }

  /** `ReplaceAll` moves past a character that does not start an occurrence. */
  lemma ReplaceAllSkip(s: string, from: string, to: string)
    requires from != [] && |s| >= |from| && !OccursAt(s, from, 0)
    ensures ReplaceAll(s, from, to) == [s[0]] + ReplaceAll(s[1..], from, to)
    ensures ReplaceCount(s, from) == ReplaceCount(s[1..], from)
  {
  }

  /** `ReplaceAll` replaces an occurrence at the start. */
  lemma ReplaceAllHere(s: string, from: string, to: string)
    requires from != [] && OccursAt(s, from, 0)
    ensures ReplaceAll(s, from, to) == to + ReplaceAll(s[|from|..], from, to)
    ensures ReplaceCount(s, from) == 1 + ReplaceCount(s[|from|..], from)
  {
    assert s[..|from|] == s[0..0 + |from|];
  }

  /** `ReplaceAll` keeps everything before the first occurrence, replaces it,
      and goes on after it: the loop "find, replace, skip the inserted text"
      computes it. */
  lemma {:induction false} ReplaceAllAt(s: string, from: string, to: string, i: nat)
    requires from != [] && OccursAt(s, from, i)
    requires forall j :: 0 <= j < i ==> !OccursAt(s, from, j)
    ensures ReplaceAll(s, from, to) == s[..i] + to + ReplaceAll(s[i + |from|..], from, to)
    decreases i
  {
    if i == 0 {
      ReplaceAllHere(s, from, to);
    } else {
      var k := i - 1;
      NoneBeforeTail(s, from, i);
      ReplaceAllAt(s[1..], from, to, k);
      ReplaceAllAtStep(s, from, to, i, k);
    }
  }

  /** The step of `ReplaceAllAt`: from the text after the first character
      to the whole text. */
  lemma ReplaceAllAtStep(s: string, from: string, to: string, i: nat, k: nat)
    requires from != [] && i == k + 1 && i + |from| <= |s| && !OccursAt(s, from, 0)
    requires ReplaceAll(s[1..], from, to) == s[1..][..k] + to + ReplaceAll(s[1..][k + |from|..], from, to)
    ensures ReplaceAll(s, from, to) == s[..i] + to + ReplaceAll(s[i + |from|..], from, to)
  {
    ReplaceAllSkip(s, from, to);
    ConsPrefix(s, i, k, to, ReplaceAll(s[1..][k + |from|..], from, to), ReplaceAll(s[1..], from, to), ReplaceAll(s, from, to));
    ReplaceTailShift(s, i, k, from, to);
  }

  lemma ReplaceTailShift(s: string, i: nat, k: nat, from: string, to: string)
    requires i == k + 1 && i + |from| <= |s|
    ensures ReplaceAll(s[1..][k + |from|..], from, to) == ReplaceAll(s[i + |from|..], from, to)
  {
    assert s[1..][k + |from|..] == s[i + |from|..];
  }

  lemma ConsPrefix(s: string, i: nat, k: nat, to: string, r: string, rt: string, rs: string)
    requires i == k + 1 && i <= |s| && rs == [s[0]] + rt && rt == s[1..][..k] + to + r
    ensures rs == s[..i] + to + r
  {
    assert s[..i] == [s[0]] + s[1..][..k];
  }

  /** A text without the searched-for string comes back unchanged. */
  lemma {:induction false} ReplaceAllAbsent(s: string, from: string, to: string)
    requires forall j :: 0 <= j ==> !OccursAt(s, from, j)
    ensures ReplaceAll(s, from, to) == s && ReplaceCount(s, from) == 0
    decreases |s|
  {
    if from != [] && |s| >= |from| {
      assert !OccursAt(s, from, 0);
      forall j | 0 <= j ensures !OccursAt(s[1..], from, j) {
        OccursAtTail(s, from, j);
      }
      ReplaceAllAbsent(s[1..], from, to);
    }
  }

  /** Each replaced occurrence changes the length by `|to| - |from|`. */
  lemma {:induction false} ReplaceAllLength(s: string, from: string, to: string)
    ensures |ReplaceAll(s, from, to)| == |s| + ReplaceCount(s, from) * (|to| - |from|)
    decreases |s|
  {
    if from != [] && |s| >= |from| {
      if s[..|from|] == from {
        var c := ReplaceCount(s[|from|..], from);
        ReplaceAllLength(s[|from|..], from, to);
        MulSucc(c, |to| - |from|);
      } else {
        ReplaceAllLength(s[1..], from, to);
      }
    }
  }

  lemma MulSucc(c: int, d: int)
    ensures (1 + c) * d == d + c * d
  {
  }

  /** Replacing a text by itself changes nothing. */
  lemma {:induction false} ReplaceAllSelf(s: string, from: string)
    ensures ReplaceAll(s, from, from) == s
    decreases |s|
  {
    if from != [] && |s| >= |from| {
      if s[..|from|] == from {
        ReplaceAllSelf(s[|from|..], from);
        assert s == s[..|from|] + s[|from|..];
      } else {
        ReplaceAllSelf(s[1..], from);
        assert s == [s[0]] + s[1..];
      }
    }
  }

  // ---------------------------------------------------------------- encoding

  /** Bytes taken by one character in UTF-8. */
  function Utf8Width(c: char): nat {
    if c as int < 0x80 then 1
    else if c as int < 0x800 then 2
    else if c as int < 0x10000 then 3
    else 4
  }

  /** Bytes taken by a text in UTF-8 (what PHP's `strlen` counts for a UTF-8
      file, and what an HTTP `Content-Length` must count). */
  function Utf8Length(s: string): nat
    decreases |s|
  {
    if s == [] then 0 else Utf8Width(s[0]) + Utf8Length(s[1..])
  }

  /** The UTF-8 encoding of a text (RFC 3629, section 3), one byte value per
      element. */
  function Utf8Encode(s: string): (r: seq<int>)
    ensures |r| == Utf8Length(s)
    ensures forall i :: 0 <= i < |r| ==> 0 <= r[i] < 256
    decreases |s|
  {
    if s == [] then []
    else
      var c := s[0] as int;
      var head :=
        if c < 0x80 then [c]
        else if c < 0x800 then [0xC0 + c / 0x40, 0x80 + c % 0x40]
        else if c < 0x10000 then [0xE0 + c / 0x1000, 0x80 + c / 0x40 % 0x40, 0x80 + c % 0x40]
        else [0xF0 + c / 0x40000, 0x80 + c / 0x1000 % 0x40, 0x80 + c / 0x40 % 0x40, 0x80 + c % 0x40];
      head + Utf8Encode(s[1..])
  }

  predicate IsAscii(s: string) { forall i :: 0 <= i < |s| ==> s[i] as int < 0x80 }

  /** The byte count is never below the character count, and equals it exactly
      for ASCII text. */
  lemma {:induction false} Utf8LengthVsLength(s: string)
    ensures Utf8Length(s) >= |s|
    ensures Utf8Length(s) == |s| <==> IsAscii(s)
    decreases |s|
  {
    if s != [] {
      Utf8LengthVsLength(s[1..]);
      if IsAscii(s[1..]) && s[0] as int < 0x80 {
        assert forall i :: 0 <= i < |s| ==> s[i] as int < 0x80 by {
          forall i | 0 <= i < |s| ensures s[i] as int < 0x80 {
            if i > 0 { assert s[i] == s[1..][i - 1]; }
          }
        }
      }
      if IsAscii(s) {
        assert forall i :: 0 <= i < |s| - 1 ==> s[1..][i] as int < 0x80 by {
          forall i | 0 <= i < |s| - 1 ensures s[1..][i] as int < 0x80 {
            assert s[1..][i] == s[i + 1];
          }
        }
      }
    }
  }
}
