/**
 * The thread-pool file server's request handler: read the first line of the
 * request, take field 1 of the line split on single spaces as the path, and
 * reply with the file (without a Content-Length header) or with 404.
 */
module PooledServer {
  import opened Wrappers
  import opened Http

  /**
   * Why a handler ends without writing a reply: readLine returned null (the
   * stream was empty), or the split line has no field 1.
   */
  datatype Fault = NullLine | IndexOutOfBounds

  /** The characters that end a line for BufferedReader.readLine. */
  predicate IsLineEnd(c: char)
  {
    c == '\n' || c == '\r'
  }

  /** The first line end in s, or |s| when there is none. */
  function IndexOfLineEnd(s: string): (i: nat)
    ensures i <= |s|
    ensures i < |s| ==> IsLineEnd(s[i])
    ensures forall j :: 0 <= j < i ==> !IsLineEnd(s[j])
  {
    if s == [] || IsLineEnd(s[0]) then 0 else 1 + IndexOfLineEnd(s[1..])
  }

  /**
   * readLine on the request stream: the characters before the first "\n",
   * "\r" or "\r\n", or up to the end; null when the stream is already at its end.
   */
  function ReadLine(input: string): (r: Option<string>)
    ensures r.None? <==> input == []
    ensures r.Some? ==> r.value <= input
    ensures r.Some? ==> forall j :: 0 <= j < |r.value| ==> !IsLineEnd(r.value[j])
    ensures r.Some? && |r.value| < |input| ==> IsLineEnd(input[|r.value|])
  {
    if input == [] then None else Some(input[..IndexOfLineEnd(input)])
  }

  /** The first line of a request is the whole of what the handler reads. */
  lemma ReadLineOfRequest(line: string, ending: string, rest: string)
    requires forall j :: 0 <= j < |line| ==> !IsLineEnd(line[j])
    requires ending == "\r\n" || ending == "\n" || ending == "\r"
    ensures ReadLine(line + ending + rest) == Some(line)
  {
    var input := line + ending + rest;
    assert forall j :: 0 <= j < |line| ==> input[j] == line[j];
    assert IsLineEnd(input[|line|]);
    assert input[..|line|] == line;
  }

  /** The first space in s, or |s| when there is none. */
  function IndexOfSpace(s: string): (i: nat)
    ensures i <= |s|
    ensures i < |s| ==> s[i] == ' '
    ensures forall j :: 0 <= j < i ==> s[j] != ' '
  {
    if s == [] || s[0] == ' ' then 0 else 1 + IndexOfSpace(s[1..])
  }

  /** Every field between single spaces, empty ones included, in order. */
  function Fields(s: string): (r: seq<string>)
    ensures |r| >= 1
    ensures forall k :: 0 <= k < |r| ==> ' ' !in r[k]
    ensures r[0] == s[..IndexOfSpace(s)]
    decreases |s|
  {
    var i := IndexOfSpace(s);
    if i == |s| then [s] else [s[..i]] + Fields(s[i + 1..])
  }

  /** The fields put back together with a single space between neighbours. */
  function Join(fs: seq<string>): string
    requires |fs| >= 1
  {
    if |fs| == 1 then fs[0] else fs[0] + " " + Join(fs[1..])
  }

  /** Splitting on spaces loses nothing: joining the fields gives the line back. */
  lemma {:induction false} JoinFields(s: string)
    ensures Join(Fields(s)) == s
    decreases |s|
  {
    var i := IndexOfSpace(s);
    if i < |s| {
      var word, rest := s[..i], s[i + 1..];
      assert s == word + " " + rest;
      FieldsAfterWord(word, rest);
      JoinFields(rest);
      JoinCons(word, Fields(rest));
    }
  }

  lemma JoinCons(a: string, g: seq<string>)
    requires |g| >= 1
    ensures Join([a] + g) == a + " " + Join(g)
  {
    assert ([a] + g)[1..] == g;
  }

  lemma IndexOfSpaceAfter(a: string, b: string)
    requires ' ' !in a
    ensures IndexOfSpace(a + " " + b) == |a|
  {
    var s := a + " " + b;
    assert forall j :: 0 <= j < |a| ==> s[j] == a[j];
    assert s[|a|] == ' ';
  }

  lemma IndexOfSpaceNone(a: string)
    requires ' ' !in a
    ensures IndexOfSpace(a) == |a|
  {
  }

  lemma FieldsAfterWord(a: string, rest: string)
    requires ' ' !in a
    ensures Fields(a + " " + rest) == [a] + Fields(rest)
  {
    var s := a + " " + rest;
    IndexOfSpaceAfter(a, rest);
    assert s[..|a|] == a;
    assert s[|a| + 1..] == rest;
  }

  /** Space-free fields joined with spaces split back into the same fields. */
  lemma {:induction false} FieldsJoin(fs: seq<string>)
    requires |fs| >= 1
    requires forall k :: 0 <= k < |fs| ==> ' ' !in fs[k]
    ensures Fields(Join(fs)) == fs
  {
    if |fs| == 1 {
      IndexOfSpaceNone(fs[0]);
    } else {
      var tail := fs[1..];
      assert forall k :: 0 <= k < |tail| ==> tail[k] == fs[k + 1];
      FieldsJoin(tail);
      FieldsAfterWord(fs[0], Join(tail));
      assert fs == [fs[0]] + tail;
    }
  }

  /** The fields with every trailing empty field removed. */
  function DropTrailingEmpty(fs: seq<string>): (r: seq<string>)
    ensures |r| <= |fs| && r == fs[..|r|]
    ensures r == [] || r[|r| - 1] != []
    ensures forall k :: |r| <= k < |fs| ==> fs[k] == []
  {
    if fs == [] then []
    else if fs[|fs| - 1] == [] then DropTrailingEmpty(fs[..|fs| - 1])
    else fs
  }

  /**
   * String.split(" "): the line itself when it holds no space; otherwise its
   * fields, with the trailing empty ones dropped.
   */
  function Split(s: string): (r: seq<string>)
    ensures forall k :: 0 <= k < |r| ==> ' ' !in r[k]
    ensures ' ' !in s ==> r == [s]
    ensures ' ' in s ==>
              && |r| <= |Fields(s)| && r == Fields(s)[..|r|]
              && (r == [] || r[|r| - 1] != [])
              && forall k :: |r| <= k < |Fields(s)| ==> Fields(s)[k] == []
  {
    if ' ' !in s then [s] else DropTrailingEmpty(Fields(s))
  }

  /** split(" ")[1]: the requested path, or the index error when there is no field 1. */
  function PathOf(line: string): (r: Result<string, Fault>)
    ensures r.Success? ==> ' ' !in r.value
    ensures r.Failure? ==> r.error == IndexOutOfBounds
  {
    var fields := Split(line);
    if |fields| < 2 then Failure(IndexOutOfBounds) else Success(fields[1])
  }

  predicate AllSpaces(s: string)
  {
    forall i :: 0 <= i < |s| ==> s[i] == ' '
  }

  /**
   * The path read off the line directly: the text after the first space up to
   * the next space, and no path when the line has no space or only spaces
   * after its first one.
   */
  function FieldAfterFirstSpace(line: string): Result<string, Fault>
  {
    var i := IndexOfSpace(line);
    if i == |line| then Failure(IndexOutOfBounds)
    else
      var rest := line[i + 1..];
      if AllSpaces(rest) then Failure(IndexOutOfBounds)
      else Success(rest[..IndexOfSpace(rest)])
  }

  /** A line of spaces only splits into empty fields only. */
  lemma {:induction false} SpacesGiveEmptyFields(s: string)
    requires AllSpaces(s)
    ensures forall k :: 0 <= k < |Fields(s)| ==> Fields(s)[k] == []
    decreases |s|
  {
    if s != [] {
      var rest := s[1..];
      assert IndexOfSpace(s) == 0;
      assert Fields(s) == [[]] + Fields(rest);
      SpacesGiveEmptyFields(rest);
    }
  }

  /** A character other than a space gives a non-empty field. */
  lemma {:induction false} NonSpaceGivesField(s: string)
    requires !AllSpaces(s)
    ensures exists k :: 0 <= k < |Fields(s)| && Fields(s)[k] != []
    decreases |s|
  {
    var i := IndexOfSpace(s);
    if i > 0 {
      assert |Fields(s)[0]| == i;
    } else {
      var rest := s[1..];
      var j :| 0 <= j < |s| && s[j] != ' ';
      assert rest[j - 1] == s[j];
      NonSpaceGivesField(rest);
      var k :| 0 <= k < |Fields(rest)| && Fields(rest)[k] != [];
      assert Fields(s) == [[]] + Fields(rest);
      assert Fields(s)[k + 1] != [];
    }
  }

  /**
   * After dropping trailing empty fields from a first field followed by g,
   * a second field is left exactly when some field of g is non-empty, and it
   * is the first field of g.
   */
  lemma SecondField(first: string, g: seq<string>)
    ensures var r := DropTrailingEmpty([first] + g);
            && (|r| >= 2 <==> exists k :: 0 <= k < |g| && g[k] != [])
            && (|r| >= 2 ==> r[1] == g[0])
  {
    var f := [first] + g;
    var r := DropTrailingEmpty(f);
    if |r| >= 2 {
      assert g[|r| - 2] == f[|r| - 1] == r[|r| - 1];
    }
    if k :| 0 <= k < |g| && g[k] != [] {
      assert f[k + 1] == g[k];
    }
  }

  /** split(" ")[1] is the text between the first and the second space. */
  lemma PathOfScans(line: string)
    ensures PathOf(line) == FieldAfterFirstSpace(line)
  {
    var i := IndexOfSpace(line);
    if i == |line| {
      assert ' ' !in line;
    } else {
      assert ' ' in line by {
        assert line[i] == ' ';
      }
      var rest := line[i + 1..];
      var g := Fields(rest);
      assert Fields(line) == [line[..i]] + g;
      SecondField(line[..i], g);
      if AllSpaces(rest) {
        SpacesGiveEmptyFields(rest);
      } else {
        NonSpaceGivesField(rest);
      }
    }
  }

  /** The path of a three-field request line is its middle field. */
  lemma PathOfRequest(word: string, path: string, version: string)
    requires ' ' !in word && ' ' !in path && ' ' !in version
    requires path != [] || version != []
    ensures PathOf(word + " " + path + " " + version) == Success(path)
  {
    var rest := path + " " + version;
    var line := word + " " + rest;
    assert line == word + " " + path + " " + version;
    IndexOfSpaceAfter(word, rest);
    assert line[|word| + 1..] == rest;
    IndexOfSpaceAfter(path, version);
    assert rest[..|path|] == path;
    assert !AllSpaces(rest) by {
      if path != [] {
        assert rest[0] == path[0];
      } else {
        assert rest[1] == version[0];
      }
    }
    PathOfScans(line);
  }

  lemma PathExample()
    ensures PathOf("GET /path/to/file HTTP/1.1") == Success("/path/to/file")
  {
    var line := "GET /path/to/file HTTP/1.1";
    assert line == "GET" + " " + "/path/to/file" + " " + "HTTP/1.1";
    PathOfRequest("GET", "/path/to/file", "HTTP/1.1");
  }

  /** Lines with fewer than two fields, trailing empty fields dropped, have no path. */
  lemma ShortLinesFail()
    ensures PathOf("GET") == Failure(IndexOutOfBounds)
    ensures PathOf("GET ") == Failure(IndexOutOfBounds)
    ensures PathOf("") == Failure(IndexOutOfBounds)
    ensures PathOf(" ") == Failure(IndexOutOfBounds)
  {
    PathOfScans("GET");
    PathOfScans("GET ");
    PathOfScans(" ");
    assert "GET "[4..] == [];
    assert " "[1..] == [];
  }

  /** The reply for what the filesystem returned: the file, or 404 for null. */
  function ReplyFor(content: Option<string>): (r: string)
    ensures r == NotFound() <==> content.None?
    ensures DecodePlain(r) == Some(if content.Some? then Found(content.value) else Missing)
  {
    var reply := if content.Some? then Found(content.value) else Missing;
    PlainRoundTrip(reply);
    RenderPlain(reply)
  }

  /** The handler after readLine: extract the path, look it up, and write the reply. */
  function HandleLine(line: string, fs: FileSystem): (r: Result<string, Fault>)
    ensures r.Failure? <==> PathOf(line).Failure?
    ensures r.Success? ==> (r.value == NotFound() <==> PathOf(line).value !in fs)
    ensures r.Success? ==>
              var path := PathOf(line).value;
              DecodePlain(r.value) == Some(if path in fs then Found(fs[path]) else Missing)
  {
    match PathOf(line)
    case Failure(e) => Failure(e)
    case Success(path) => Success(ReplyFor(ReadFile(fs, path)))
  }

  /**
   * The whole handler: a null line fails before any reply is written, and
   * otherwise the first line alone decides the outcome.
   */
  function Handle(input: string, fs: FileSystem): (r: Result<string, Fault>)
    ensures input == [] ==> r == Failure(NullLine)
    ensures r == Failure(NullLine) <==> input == []
    ensures input != [] ==> (r.Failure? <==> PathOf(ReadLine(input).value).Failure?)
  {
    match ReadLine(input)
    case None => Failure(NullLine)
    case Some(line) => HandleLine(line, fs)
  }

  /**
   * The first word is never examined: a request whose first word is not GET
   * is served the same as a GET.
   */
  lemma MethodWordIgnored(w1: string, w2: string, rest: string, fs: FileSystem)
    requires ' ' !in w1 && ' ' !in w2
    ensures HandleLine(w1 + " " + rest, fs) == HandleLine(w2 + " " + rest, fs)
  {
    var l1 := w1 + " " + rest;
    var l2 := w2 + " " + rest;
    IndexOfSpaceAfter(w1, rest);
    IndexOfSpaceAfter(w2, rest);
    assert l1[|w1| + 1..] == rest;
    assert l2[|w2| + 1..] == rest;
    PathOfScans(l1);
    PathOfScans(l2);
  }

  /**
   * What a client reads back for "<word> <path> <version>": the file's
   * contents when the path exists and 404 otherwise; nothing after the first
   * line affects the reply.
   */
  lemma HandleRequest(word: string, path: string, version: string, ending: string, rest: string, fs: FileSystem)
    requires ' ' !in word && ' ' !in path && ' ' !in version
    requires path != [] || version != []
    requires forall j :: 0 <= j < |word + " " + path + " " + version| ==> !IsLineEnd((word + " " + path + " " + version)[j])
    requires ending == "\r\n" || ending == "\n" || ending == "\r"
    ensures Handle(word + " " + path + " " + version + ending + rest, fs).Success?
    ensures DecodePlain(Handle(word + " " + path + " " + version + ending + rest, fs).value)
            == Some(if path in fs then Found(fs[path]) else Missing)
  {
    var line := word + " " + path + " " + version;
    ReadLineOfRequest(line, ending, rest);
    PathOfRequest(word, path, version);
  }
}
