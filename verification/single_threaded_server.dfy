/**
 * The single-threaded file server's request handling: read the first
 * CRLF-delimited token of the request, find "GET <path> HTTP/<d>.<d>" in it,
 * and reply with the file (with a Content-Length header) or with 404.
 */
module SingleThreadedServer {
  import opened Wrappers
  import opened Http
  import Decimal

  /** Scanner.next() found no token: the exception ends the server loop. */
  datatype Fault = NoSuchElement

  predicate CrlfAt(s: string, i: int)
  {
    0 <= i && i + 1 < |s| && s[i] == '\r' && s[i + 1] == '\n'
  }

  predicate CrlfFree(s: string)
  {
    forall i :: 0 <= i < |s| ==> !CrlfAt(s, i)
  }

  /** The first CRLF at or after `from`, or |s| when there is none. */
  function FindCrlf(s: string, from: nat): (i: nat)
    requires from <= |s|
    ensures from <= i <= |s|
    ensures i < |s| ==> CrlfAt(s, i)
    ensures forall j :: from <= j < i ==> !CrlfAt(s, j)
    decreases |s| - from
  {
    if from + 1 >= |s| then |s|
    else if CrlfAt(s, from) then from
    else FindCrlf(s, from + 1)
  }

  /**
   * `new Scanner(input).useDelimiter("\\r\\n").next()` on a closed input: one
   * leading delimiter is skipped, and the token runs to the next delimiter or
   * to the end; with nothing left there is no token.
   */
  function FirstToken(input: string): (r: Option<string>)
    ensures r.None? <==> input == [] || input == Crlf
    ensures r.Some? ==> CrlfFree(r.value)
    ensures r.Some? ==>
              var start := if CrlfAt(input, 0) then 2 else 0;
              var end := start + |r.value|;
              && end <= |input| && input[start..end] == r.value
              && (end == |input| || CrlfAt(input, end))
  {
    var start := if CrlfAt(input, 0) then 2 else 0;
    if start == |input| then None
    else
      var t := input[start..FindCrlf(input, start)];
      assert forall i :: CrlfAt(t, i) ==> CrlfAt(input, start + i);
      Some(t)
  }

  /** The first line of a request is what the server reads, whatever follows it. */
  lemma FirstTokenOfRequest(line: string, rest: string)
    requires line != [] && CrlfFree(line)
    ensures FirstToken(line + Crlf + rest) == Some(line)
  {
    var input := line + Crlf + rest;
    assert !CrlfAt(input, 0) by {
      if |line| >= 2 {
        assert !CrlfAt(line, 0);
      }
    }
    assert CrlfAt(input, |line|);
    forall j | 0 <= j < |line|
      ensures !CrlfAt(input, j)
    {
      if j + 1 < |line| {
        assert !CrlfAt(line, j);
      }
    }
    assert FindCrlf(input, 0) == |line|;
    assert input[0..|line|] == line;
  }

  /** Only one leading delimiter is skipped: after it, the token is the next line, possibly empty. */
  lemma FirstTokenAfterCrlf(line: string, rest: string)
    requires CrlfFree(line)
    ensures FirstToken(Crlf + line + Crlf + rest) == Some(line)
  {
    var input := Crlf + line + Crlf + rest;
    assert CrlfAt(input, 0);
    assert CrlfAt(input, 2 + |line|);
    forall j | 2 <= j < 2 + |line|
      ensures !CrlfAt(input, j)
    {
      if j + 1 < 2 + |line| {
        assert !CrlfAt(line, j - 2);
      }
    }
    assert FindCrlf(input, 2) == 2 + |line|;
    assert input[2..2 + |line|] == line;
  }

  /** Without any delimiter the whole closed input is the token. */
  lemma FirstTokenUnterminated(line: string)
    requires line != [] && CrlfFree(line)
    ensures FirstToken(line) == Some(line)
  {
    assert !CrlfAt(line, 0);
    assert FindCrlf(line, 0) == |line|;
    assert line[0..|line|] == line;
  }

  /** Characters Java's `.` does not match (no DOTALL flag). */
  predicate IsLineTerminator(c: char)
  {
    c == '\n' || c == '\r' || c == '\U{85}' || c == '\U{2028}' || c == '\U{2029}'
  }

  const GetPrefix: string := "GET "
  const VersionPrefix: string := " HTTP/"

  /**
   * The pattern `GET (.+) HTTP/\d.\d` matches at index s of line with a group
   * of len characters: "GET ", len non-terminators, " HTTP/", a digit, any
   * non-terminator, a digit.
   */
  predicate MatchAt(line: string, s: int, len: int)
  {
    && 0 <= s && 1 <= len && s + len + 13 <= |line|
    && line[s..s + 4] == GetPrefix
    && (forall i :: s + 4 <= i < s + 4 + len ==> !IsLineTerminator(line[i]))
    && line[s + 4 + len..s + 10 + len] == VersionPrefix
    && Decimal.IsDigit(line[s + 10 + len])
    && !IsLineTerminator(line[s + 11 + len])
    && Decimal.IsDigit(line[s + 12 + len])
  }

  /** The greedy `(.+)`: the longest group of at most len characters matching at s. */
  function LongestAt(line: string, s: int, len: nat): (r: Option<nat>)
    ensures r.Some? ==> r.value <= len && MatchAt(line, s, r.value)
    ensures forall l :: (if r.Some? then r.value else 0) < l <= len ==> !MatchAt(line, s, l)
  {
    if len == 0 then None
    else if MatchAt(line, s, len) then Some(len)
    else LongestAt(line, s, len - 1)
  }

  /** Matcher.find from index `from`: the leftmost start that matches, with its greedy group length. */
  function FindFrom(line: string, from: nat): (r: Option<(nat, nat)>)
    ensures r.Some? ==> from <= r.value.0 && MatchAt(line, r.value.0, r.value.1)
    ensures r.Some? ==> forall s, l :: from <= s < r.value.0 ==> !MatchAt(line, s, l)
    ensures r.Some? ==> forall l :: l > r.value.1 ==> !MatchAt(line, r.value.0, l)
    ensures r.None? ==> forall s, l :: from <= s ==> !MatchAt(line, s, l)
    decreases |line| - from
  {
    if from > |line| then None
    else
      match LongestAt(line, from, |line|)
      case Some(l) => Some((from, l))
      case None => FindFrom(line, from + 1)
  }

  /** parseFileName on the first line: group 1 of the first match, or null. */
  function ParseFileName(line: string): (r: Option<string>)
    ensures r.Some? ==> |r.value| >= 1 && forall i :: 0 <= i < |r.value| ==> !IsLineTerminator(r.value[i])
    ensures r.Some? ==>
              exists s ::
                && MatchAt(line, s, |r.value|) && line[s + 4..s + 4 + |r.value|] == r.value
                && (forall s', l :: 0 <= s' < s ==> !MatchAt(line, s', l))
                && (forall l :: l > |r.value| ==> !MatchAt(line, s, l))
    ensures r.None? <==> forall s, l :: !MatchAt(line, s, l)
  {
    match FindFrom(line, 0)
    case Some((s, l)) =>
      var p := line[s + 4..s + 4 + l];
      assert forall i :: 0 <= i < |p| ==> p[i] == line[s + 4 + i];
      Some(p)
    case None => None
  }

  /** A GET request line for path p with version characters v. */
  function RequestLine(p: string, v: string): string
  {
    GetPrefix + p + VersionPrefix + v
  }

  /** A well-formed version: digit, any non-terminator, digit. */
  predicate IsVersion(v: string)
  {
    |v| == 3 && Decimal.IsDigit(v[0]) && !IsLineTerminator(v[1]) && Decimal.IsDigit(v[2])
  }

  /** A path the group can capture: non-empty, without line terminators. */
  predicate IsPath(p: string)
  {
    |p| >= 1 && forall i :: 0 <= i < |p| ==> !IsLineTerminator(p[i])
  }

  /** A request line matches at its start, with the whole path as the group. */
  lemma RequestLineMatches(p: string, v: string)
    requires IsPath(p) && IsVersion(v)
    ensures MatchAt(RequestLine(p, v), 0, |p|)
    ensures RequestLine(p, v)[4..4 + |p|] == p
    ensures |RequestLine(p, v)| == |p| + 13
  {
    var line := RequestLine(p, v);
    var len := |p|;
    assert line == GetPrefix + p + VersionPrefix + v;
    assert line[0..4] == GetPrefix;
    assert line[4..4 + len] == p;
    assert line[4 + len..10 + len] == VersionPrefix;
    assert line[10 + len..] == v;
  }

  /** A request line contains no carriage return, so no CRLF either. */
  lemma RequestLineHasNoCr(p: string, v: string)
    requires IsPath(p) && IsVersion(v)
    ensures forall i :: 0 <= i < |RequestLine(p, v)| ==> RequestLine(p, v)[i] != '\r'
  {
    var line := RequestLine(p, v);
    RequestLineMatches(p, v);
    forall i | 0 <= i < |line|
      ensures line[i] != '\r'
    {
      if i < 4 {
        assert line[i] == GetPrefix[i];
      } else if i < 4 + |p| {
        assert line[i] == p[i - 4];
      } else if i < 10 + |p| {
        assert line[i] == VersionPrefix[i - 4 - |p|];
      }
    }
  }

  /** Parsing a request line gives back its path, whatever the path contains. */
  lemma ParseRequestLine(p: string, v: string)
    requires IsPath(p) && IsVersion(v)
    ensures ParseFileName(RequestLine(p, v)) == Some(p)
  {
    RequestLineMatches(p, v);
    ParseWholeMatch(RequestLine(p, v), p);
  }

  /** A match that starts at 0 and ends at the end of the line is the one found. */
  lemma ParseWholeMatch(line: string, p: string)
    requires MatchAt(line, 0, |p|) && |line| == |p| + 13 && line[4..4 + |p|] == p
    ensures ParseFileName(line) == Some(p)
  {
    var r := FindFrom(line, 0);
    assert r.Some?;
    assert r.value.0 == 0;
    assert r.value.1 == |p|;
  }

  /** The request line of the source's own documentation comment. */
  lemma ParseExample()
    ensures ParseFileName("GET /path/to/file HTTP/1.1") == Some("/path/to/file")
  {
    assert "GET /path/to/file HTTP/1.1" == RequestLine("/path/to/file", "1.1");
    ParseRequestLine("/path/to/file", "1.1");
  }

  /** serveFilename: the file with its length, or 404 when readFile returns null. */
  function ServeFilename(filename: string, fs: FileSystem): (r: string)
    ensures r == NotFound() <==> filename !in fs
    ensures DecodeWithLength(r) == Some(if filename in fs then Found(fs[filename]) else Missing)
  {
    match ReadFile(fs, filename)
    case Some(contents) =>
      WithLengthRoundTrip(Found(contents));
      WithLengthRoundTrip(Missing);
      OkWithLength(contents)
    case None => NotFound()
  }

  /**
   * One pass of the server loop: the reply written for the request, 404 when
   * the first line does not match, or the fault that ends the loop.
   */
  function Respond(request: string, fs: FileSystem): (r: Result<string, Fault>)
    ensures r.Failure? <==> request == [] || request == Crlf
    ensures r.Success? ==>
              var name := ParseFileName(FirstToken(request).value);
              DecodeWithLength(r.value)
                == Some(if name.Some? && name.value in fs then Found(fs[name.value]) else Missing)
  {
    match FirstToken(request)
    case None => Failure(NoSuchElement)
    case Some(line) =>
      match ParseFileName(line)
      case None =>
        WithLengthRoundTrip(Missing);
        Success(NotFound())
      case Some(filename) => Success(ServeFilename(filename, fs))
  }

  /**
   * What a client reads back: for a well-formed GET of p the file's contents,
   * with a Content-Length equal to their length, when p exists, and 404
   * otherwise; nothing after the first line affects the reply.
   */
  lemma RespondToGet(p: string, v: string, rest: string, fs: FileSystem)
    requires IsPath(p) && IsVersion(v)
    ensures Respond(RequestLine(p, v) + Crlf + rest, fs).Success?
    ensures DecodeWithLength(Respond(RequestLine(p, v) + Crlf + rest, fs).value)
            == Some(if p in fs then Found(fs[p]) else Missing)
  {
    var line := RequestLine(p, v);
    assert CrlfFree(line) by {
      RequestLineHasNoCr(p, v);
    }
    FirstTokenOfRequest(line, rest);
    ParseRequestLine(p, v);
    if p in fs {
      WithLengthRoundTrip(Found(fs[p]));
    } else {
      WithLengthRoundTrip(Missing);
    }
  }

  /** A first line without a match, or a missing file, yields exactly the 404 reply. */
  lemma NotFoundCases(request: string, fs: FileSystem)
    requires FirstToken(request).Some?
    requires var name := ParseFileName(FirstToken(request).value);
             name.None? || name.value !in fs
    ensures Respond(request, fs) == Success(NotFound())
  {
  }
}
