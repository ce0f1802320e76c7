/** What the CGI scripts of the site share: reading the environment, and
    the response layout they write (RFC 3875, section 6): a `Status` line,
    `Content-Type`, `Content-Length`, one empty line, then the body. */
module CgiFrame {
  import opened Text

  /** A variable of the process environment, or `default` when it is not
      set (`os.environ.get`, and `getenv` with a fallback for null). */
  function EnvGet(env: map<string, string>, name: string, default: string): string {
    if name in env then env[name] else default
  }

  const CRLF: string := "\r\n"
  /** The header/body separator: the end of the last header line followed by an empty line. */
  const Blank: string := "\r\n\r\n"

  /** The three header lines, without the line break after the last one. */
  function HeaderBlock(status: string, contentType: string, length: string): string {
    "Status: " + status + CRLF + "Content-Type: " + contentType + CRLF + "Content-Length: " + length
  }

  /** A block of a status line and a type line, without the line break
      after the second. */
  function StatusTypeBlock(status: string, contentType: string): string {
    "Status: " + status + CRLF + "Content-Type: " + contentType
  }

  /** A line break is a `'\r'` ending one text and a `'\n'` starting the next. */
  lemma CrlfSplit(a: string, b: string)
    ensures a + CRLF + b == (a + "\r") + "\n" + b
  {
  }

  /** A complete response in the scripts' layout. */
  function Framed(status: string, contentType: string, length: string, body: string): string {
    HeaderBlock(status, contentType, length) + Blank + body
  }

  /** A header value that does not break the line. */
  predicate SingleLine(s: string) { NoChar(s, '\r') && NoChar(s, '\n') }

  /** A header value as the scripts write it: on one line, without
      surrounding spaces. */
  predicate PlainValue(v: string) {
    SingleLine(v) && |v| > 0 && v[0] != ' ' && v[|v| - 1] != ' '
  }

  /** The status lines and content types the scripts write are plain values. */
  lemma LiteralsPlain()
    ensures PlainValue("200 OK") && PlainValue("400 Bad Request") && PlainValue("500 Internal Server Error")
    ensures PlainValue("text/plain") && PlainValue("text/html") && PlainValue("1")
  {
  }

  /** Every `'\r'` of `h` has a non-`'\r'` two places further on, inside `h`:
      no `"\r\n\r\n"` starts in `h`, whatever follows it. */
  predicate CrNotDoubled(h: string) {
    forall k :: 0 <= k < |h| && h[k] == '\r' ==> k + 2 < |h| && h[k + 2] != '\r'
  }

  /** A line break between a single line and a non-empty text that does not
      start with `'\r'` keeps the property. */
  lemma CrNotDoubledLine(x: string, y: string)
    requires SingleLine(x) && CrNotDoubled(y) && |y| > 0 && y[0] != '\r'
    ensures CrNotDoubled(x + CRLF + y)
  {
    var s := x + CRLF + y;
    forall k | 0 <= k < |s|
      ensures s[k] == '\r' ==> k + 2 < |s| && s[k + 2] != '\r'
    {
      if k < |x| {
        assert s[k] == x[k];
      } else if k >= |x| + 2 {
        assert s[k] == y[k - |x| - 2];
        if s[k] == '\r' {
          assert s[k + 2] == y[k - |x|];
        }
      }
    }
  }

  lemma SingleLineConcat(x: string, y: string)
    requires SingleLine(x) && SingleLine(y)
    ensures SingleLine(x + y)
  {
    assert forall i :: |x| <= i < |x + y| ==> (x + y)[i] == y[i - |x|];
  }

  /** The scripts' header block never contains the separator, not even across its end. */
  lemma HeaderBlockCrNotDoubled(status: string, contentType: string, length: string)
    requires SingleLine(status) && SingleLine(contentType) && SingleLine(length)
    ensures CrNotDoubled(HeaderBlock(status, contentType, length))
  {
    var a, b, c := "Status: " + status, "Content-Type: " + contentType, "Content-Length: " + length;
    SingleLineConcat("Status: ", status);
    SingleLineConcat("Content-Type: ", contentType);
    SingleLineConcat("Content-Length: ", length);
    CrNotDoubledLine(b, c);
    CrNotDoubledLine(a, b + CRLF + c);
    assert HeaderBlock(status, contentType, length) == a + CRLF + (b + CRLF + c);
  }

  predicate EndsWithCrlf(h: string) { |h| >= 2 && h[|h| - 2..] == CRLF }

  /** After a block that holds no separator and does not end in CRLF, the
      first separator is the one appended to it. */
  lemma FirstBlank(h: string, body: string)
    requires !Contains(h, Blank) && !EndsWithCrlf(h)
    ensures Find(h + Blank + body, Blank) == Some(|h|)
  {
    var s := h + Blank + body;
    assert s[|h|..|h| + 4] == Blank;
    assert s[|h|] == '\r' && s[|h| + 1] == '\n';
    forall j | 0 <= j < |h| ensures !OccursAt(s, Blank, j) {
      if j + 4 <= |h| {
        assert !OccursAt(h, Blank, j);
        assert s[j..j + 4] == h[j..j + 4];
      } else if j == |h| - 1 {
        assert s[j..j + 4][1] == s[j + 1] == '\r';
      } else if j == |h| - 2 {
        assert s[j..j + 4][..2] == h[|h| - 2..];
        assert Blank[..2] == CRLF;
      } else {
        assert j + 3 == |h|;
        assert s[j..j + 4][3] == s[|h|];
      }
    }
    FindFromIs(s, Blank, 0, |h|);
  }

  /** A block without a doubled `'\r'` meets the conditions of `FirstBlank`. */
  lemma CrNotDoubledSafe(h: string)
    requires CrNotDoubled(h)
    ensures !Contains(h, Blank) && !EndsWithCrlf(h)
  {
    forall j | 0 <= j <= |h| ensures !OccursAt(h, Blank, j) {
      if j + 4 <= |h| {
        assert h[j..j + 4][0] == h[j] && h[j..j + 4][2] == h[j + 2];
      }
    }
    if |h| >= 2 {
      assert h[|h| - 2..][0] == h[|h| - 2];
    }
  }

  /** Output shape: the first empty line of a framed response comes right
      after the `Content-Length` line, and the text after it is exactly the body. */
  lemma FramedShape(status: string, contentType: string, length: string, body: string)
    requires SingleLine(status) && SingleLine(contentType) && SingleLine(length)
    ensures Find(Framed(status, contentType, length, body), Blank) == Some(|HeaderBlock(status, contentType, length)|)
    ensures Framed(status, contentType, length, body)[|HeaderBlock(status, contentType, length)| + |Blank|..] == body
  {
    var h := HeaderBlock(status, contentType, length);
    HeaderBlockCrNotDoubled(status, contentType, length);
    CrNotDoubledSafe(h);
    FirstBlank(h, body);
    assert (h + Blank + body)[|h| + 4..] == body;
  }
}
