/**
 * What both file servers share: the filesystem they read, the exact reply
 * texts they write, and readers for those texts.
 */
module Http {
  import opened Wrappers
  import Decimal

  /** The served filesystem: a path either has contents or is missing. */
  type FileSystem = map<string, string>

  /** readFile: the contents, or null for a missing file. */
  function ReadFile(fs: FileSystem, path: string): Option<string>
  {
    if path in fs then Some(fs[path]) else None
  }

  const Crlf: string := "\r\n"

  /** The status line and server header that start every 200 reply. */
  const OkHead: string := "HTTP/1.0 200 OK\r\nServer: FileServer\r\n"

  /** The reply both servers write for a missing file. */
  function NotFound(): string
  {
    "HTTP/1.0 404 Not Found\r\nServer: FileServer\r\n\r\n"
  }

  const LengthHeader: string := "Content-Length: "

  /**
   * Java's String.length(): the number of UTF-16 code units, so a character
   * above U+FFFF counts twice.
   */
  function Utf16Length(s: string): (len: nat)
    ensures |s| <= len <= 2 * |s|
    ensures (forall i :: 0 <= i < |s| ==> s[i] as int < 0x1_0000) ==> len == |s|
  {
    if |s| == 0 then 0
    else (if s[0] as int < 0x1_0000 then 1 else 2) + Utf16Length(s[1..])
  }

  /** The single-threaded server's 200 reply, which carries a Content-Length header. */
  function OkWithLength(contents: string): string
  {
    OkHead + LengthHeader + Decimal.FromNat(Utf16Length(contents)) + Crlf + Crlf + contents + Crlf
  }

  /** The thread-pool server's 200 reply, which has no Content-Length header. */
  function OkPlain(content: string): string
  {
    OkHead + Crlf + content + Crlf
  }

  /** What a reply tells the client. */
  datatype Reply = Found(body: string) | Missing

  function RenderWithLength(r: Reply): string
  {
    match r
    case Found(body) => OkWithLength(body)
    case Missing => NotFound()
  }

  function RenderPlain(r: Reply): string
  {
    match r
    case Found(body) => OkPlain(body)
    case Missing => NotFound()
  }

  /**
   * A client's reading of a Content-Length reply: the body lies between the
   * blank line and the final CRLF and must be as long as the header says.
   */
  function DecodeWithLength(text: string): Option<Reply>
  {
    var head := OkHead + LengthHeader;
    if text == NotFound() then Some(Missing)
    else if |text| < |head| || text[..|head|] != head then None
    else DecodeLengthAndBody(text[|head|..])
  }

  /** The part after "Content-Length: ": the digits, a blank line, the body and a CRLF. */
  function DecodeLengthAndBody(rest: string): Option<Reply>
  {
    var d := Decimal.LeadingDigits(rest);
    var tail := rest[d..];
    if d == 0 || |tail| < 6 || tail[..4] != Crlf + Crlf || tail[|tail| - 2..] != Crlf then None
    else
      var body := tail[4..|tail| - 2];
      if Decimal.ToNat(rest[..d]) == Utf16Length(body) then Some(Found(body)) else None
  }

  /** A client's reading of a reply without Content-Length: the body runs up to the final CRLF. */
  function DecodePlain(text: string): Option<Reply>
  {
    var head := OkHead + Crlf;
    if text == NotFound() then Some(Missing)
    else if |text| < |head| + 2 || text[..|head|] != head || text[|text| - 2..] != Crlf then None
    else Some(Found(text[|head|..|text| - 2]))
  }

  /**
   * Every Content-Length reply reads back as what was sent; in particular the
   * header counts the contents only, not the trailing CRLF.
   */
  lemma WithLengthRoundTrip(r: Reply)
    ensures DecodeWithLength(RenderWithLength(r)) == Some(r)
  {
    if r.Found? {
      var c := r.body;
      var head := OkHead + LengthHeader;
      var rest := Decimal.FromNat(Utf16Length(c)) + Crlf + Crlf + c + Crlf;
      var text := OkWithLength(c);
      assert text == head + rest;
      assert text[9] != NotFound()[9];
      assert text[..|head|] == head && text[|head|..] == rest;
      LengthAndBodyRoundTrip(c);
    }
  }

  lemma LengthAndBodyRoundTrip(c: string)
    ensures DecodeLengthAndBody(Decimal.FromNat(Utf16Length(c)) + Crlf + Crlf + c + Crlf) == Some(Found(c))
  {
    var digits := Decimal.FromNat(Utf16Length(c));
    var after := Crlf + Crlf + c + Crlf;
    var rest := digits + Crlf + Crlf + c + Crlf;
    assert rest == digits + after;
    Decimal.LeadingDigitsOf(digits, after);
    assert rest[..|digits|] == digits;
    var tail := rest[|digits|..];
    assert tail == after;
    assert tail[..4] == Crlf + Crlf;
    assert tail[|tail| - 2..] == Crlf;
    assert tail[4..|tail| - 2] == c;
    Decimal.RoundTrip(Utf16Length(c));
  }

  /** Every plain reply reads back as what was sent. */
  lemma PlainRoundTrip(r: Reply)
    ensures DecodePlain(RenderPlain(r)) == Some(r)
  {
    if r.Found? {
      var head := OkHead + Crlf;
      var text := OkPlain(r.body);
      assert text == head + r.body + Crlf;
      assert text[9] != NotFound()[9];
      assert text[|head|..|text| - 2] == r.body;
    }
  }
}
