/** Client and server together: what one side prints, the other side reads back. */
module RoundTrip {
  import opened Collections
  import opened Text
  import opened HttpMessages
  import HttpServer
  import HttpClient
  import WeatherServer

  /** One differing character is enough for a needle not to occur. */
  lemma Mismatch(s: string, needle: string, j: nat, k: nat)
    requires k < |needle| && (j + k < |s| ==> s[j + k] != needle[k])
    ensures !Occurs(s, needle, j)
  {
    assert j + |needle| <= |s| ==> s[j..j + |needle|][k] == s[j + k];
  }

  // ---------- Where a header ends ----------

  /** No blank line starts in s, whatever follows a line end behind it. */
  ghost predicate GoodHead(s: string) {
    forall j | 0 <= j < |s| && s[j] == '\r' :: j + 2 < |s| && s[j + 2] != '\r'
  }

  /** Lines joined by line ends, each line but the first not empty. */
  lemma GoodJoin(a: string, b: string)
    requires GoodHead(a) && GoodHead(b) && b != "" && b[0] != '\r'
    ensures GoodHead(a + "\r\n" + b)
  {
    var s := a + "\r\n" + b;
    assert s[|a| + 1] == '\n';
    forall j | 0 <= j < |s| && s[j] == '\r'
      ensures j + 2 < |s| && s[j + 2] != '\r'
    {
      if j < |a| {
        assert a[j] == '\r' && s[j + 2] == a[j + 2];
      } else if j == |a| {
        assert s[j + 2] == b[0];
      } else if j >= |a| + 2 {
        assert s[j] == b[j - |a| - 2] && s[j + 2] == b[j - |a| - 2 + 2];
      }
    }
  }

  /** The header ends at the first blank line, whatever the bytes behind it are. */
  lemma HeaderEndIs(head: string, rest: string)
    requires GoodHead(head)
    ensures HeaderEnd(head + BLANK_LINE + rest) == |head| + 4
  {
    var s := head + BLANK_LINE + rest;
    assert s[|head|..|head| + 4] == BLANK_LINE;
    forall j: nat | j < |head|
      ensures !Occurs(s, BLANK_LINE, j)
    {
      assert s[j] == head[j];
      if head[j] == '\r' {
        assert s[j + 2] == head[j + 2];
        Mismatch(s, BLANK_LINE, j, 2);
      } else {
        Mismatch(s, BLANK_LINE, j, 0);
      }
    }
    StrStrIs(s, BLANK_LINE, |head|);
  }

  // ---------- Responses ----------

  /** No character that ends a line or a C string, and no 'L'. */
  ghost predicate Plain(s: string) {
    forall i | 0 <= i < |s| :: s[i] != '\r' && s[i] != '\n' && s[i] != '\0' && s[i] != 'L'
  }

  lemma PlainAppend(a: string, b: string)
    requires Plain(a) && Plain(b)
    ensures Plain(a + b)
  {
  }

  lemma {:induction false} DecIsPlain(n: nat)
    ensures Plain(Dec(n))
  {
    forall i | 0 <= i < |Dec(n)|
      ensures IsDigit(Dec(n)[i])
    {
      assert Dec(n)[i] in Dec(n);
    }
  }

  lemma PlainIsGood(s: string)
    requires Plain(s)
    ensures GoodHead(s)
  {
  }

  const LENGTH_FIELD := "Content-Length:"

  /** The field is found where it is first written, behind lines without an 'L'. */
  lemma LengthFieldAt(before: string, rest: string)
    requires 'L' !in before && (before == "" || before[|before| - 1] == '\n')
    ensures StrStr(before + LENGTH_FIELD + rest, LENGTH_FIELD) == Some(|before|)
  {
    var s := before + LENGTH_FIELD + rest;
    assert s[|before|..|before| + 15] == LENGTH_FIELD;
    forall j: nat | j < |before|
      ensures !Occurs(s, LENGTH_FIELD, j)
    {
      if j + 8 < |before| {
        assert s[j + 8] == before[j + 8] && before[j + 8] in before;
        Mismatch(s, LENGTH_FIELD, j, 8);
      } else {
        var k := |before| - 1 - j;
        assert s[j + k] == before[|before| - 1] == '\n';
        Mismatch(s, LENGTH_FIELD, j, k);
      }
    }
    StrStrIs(s, LENGTH_FIELD, |before|);
  }

  lemma LiteralsPlain()
    ensures Plain("HTTP/1.1 ") && Plain(" ") && Plain("Content-Type: ") && Plain(WeatherServer.ORIGIN_LINE)
  {
  }

  lemma ReasonNamesPlain()
    ensures Plain("OK") && Plain("Error") && Plain("Not Found") && Plain("Internal Server Error")
  {
  }

  lemma ReasonsPlain(r: WeatherServer.Response)
    requires WeatherServer.FromHandler(r)
    ensures Plain(r.reason)
  {
    hide Plain;
    ReasonNamesPlain();
  }

  lemma TypeNamesPlain()
    ensures Plain(WeatherServer.HTML) && Plain(WeatherServer.PLAIN) && Plain(WeatherServer.JSON)
  {
  }

  lemma TypesPlain(r: WeatherServer.Response)
    requires WeatherServer.FromHandler(r)
    ensures Plain(r.contentType)
  {
    hide Plain;
    TypeNamesPlain();
  }

  lemma FieldsPlain(r: WeatherServer.Response)
    requires WeatherServer.FromHandler(r)
    ensures Plain(WeatherServer.StatusLine(r.code, r.reason))
    ensures Plain("Content-Type: " + r.contentType) && Plain(WeatherServer.ORIGIN_LINE)
  {
    hide Plain, Dec, WeatherServer.FromHandler;
    LiteralsPlain();
    ReasonsPlain(r);
    TypesPlain(r);
    DecIsPlain(r.code);
    PlainAppend("HTTP/1.1 ", Dec(r.code));
    PlainAppend("HTTP/1.1 " + Dec(r.code), " ");
    PlainAppend("HTTP/1.1 " + Dec(r.code) + " ", r.reason);
    PlainAppend("Content-Type: ", r.contentType);
  }

  /** The header without its blank line. */
  function Head(r: WeatherServer.Response): string {
    WeatherServer.FieldsBefore(r.code, r.reason, r.contentType) + LENGTH_FIELD + " " + Dec(|r.body|)
  }

  lemma HeadSplits(r: WeatherServer.Response)
    ensures WeatherServer.Header(r.code, r.reason, r.contentType, |r.body|) == Head(r) + BLANK_LINE
    ensures WeatherServer.Assemble(r) == Head(r) + BLANK_LINE + r.body
  {
    var f := WeatherServer.FieldsBefore(r.code, r.reason, r.contentType);
    hide WeatherServer.FieldsBefore, Dec;
    assert "Content-Length: " == LENGTH_FIELD + " ";
    assert f + "Content-Length: " == f + LENGTH_FIELD + " ";
  }

  lemma {:induction false} LengthLineIsGood(n: nat)
    ensures GoodHead(LENGTH_FIELD + " " + Dec(n))
  {
    DecIsPlain(n);
    hide Dec;
    var s := LENGTH_FIELD + " " + Dec(n);
    assert forall j | 0 <= j < 16 :: (LENGTH_FIELD + " ")[j] != '\r';
    assert forall j | 0 <= j < |s| :: s[j] == if j < 16 then (LENGTH_FIELD + " ")[j] else Dec(n)[j - 16];
  }

  lemma FourLines(a: string, b: string, c: string, d: string)
    requires GoodHead(a) && GoodHead(b) && GoodHead(c) && GoodHead(d)
    requires b != "" && b[0] != '\r' && c != "" && c[0] != '\r' && d != "" && d[0] != '\r'
    ensures GoodHead(a + "\r\n" + b + "\r\n" + c + "\r\n" + d)
  {
    hide GoodHead;
    GoodJoin(a, b);
    GoodJoin(a + "\r\n" + b, c);
    GoodJoin(a + "\r\n" + b + "\r\n" + c, d);
  }

  lemma HeadIsGood(r: WeatherServer.Response)
    requires WeatherServer.FromHandler(r)
    ensures GoodHead(Head(r))
  {
    hide GoodHead, Plain, Dec, WeatherServer.FromHandler, WeatherServer.StatusLine;
    var a := WeatherServer.StatusLine(r.code, r.reason);
    var b := "Content-Type: " + r.contentType;
    var c := WeatherServer.ORIGIN_LINE;
    var d := LENGTH_FIELD + " " + Dec(|r.body|);
    FieldsPlain(r);
    PlainIsGood(a);
    PlainIsGood(b);
    PlainIsGood(c);
    LengthLineIsGood(|r.body|);
    assert b[0] == 'C' && c[0] == 'A' && d[0] == 'C';
    FourLines(a, b, c, d);
    HeadLines(r, a, b, c, d);
  }

  lemma HeadLines(r: WeatherServer.Response, a: string, b: string, c: string, d: string)
    requires a == WeatherServer.StatusLine(r.code, r.reason) && b == "Content-Type: " + r.contentType
    requires c == WeatherServer.ORIGIN_LINE && d == LENGTH_FIELD + " " + Dec(|r.body|)
    ensures Head(r) == a + "\r\n" + b + "\r\n" + c + "\r\n" + d
    ensures WeatherServer.FieldsBefore(r.code, r.reason, r.contentType) == a + "\r\n" + b + "\r\n" + c + "\r\n"
  {
    hide Dec, WeatherServer.StatusLine;
    assert a + "\r\n" + ("Content-Type: " + r.contentType) == a + "\r\n" + "Content-Type: " + r.contentType;
    var f := a + "\r\n" + b + "\r\n" + c + "\r\n";
    assert f + (LENGTH_FIELD + " " + Dec(|r.body|)) == f + LENGTH_FIELD + " " + Dec(|r.body|);
  }

  lemma {:induction false} CStringWhole(s: string)
    requires '\0' !in s
    ensures CString(s) == s
  {
  }

  lemma LinesWithout(a: string, b: string, c: string)
    requires Plain(a) && Plain(b) && Plain(c)
    ensures var f := a + "\r\n" + b + "\r\n" + c + "\r\n";
            f[|f| - 1] == '\n' && 'L' !in f && '\0' !in f
  {
    var f := a + "\r\n" + b + "\r\n" + c + "\r\n";
    forall i | 0 <= i < |f|
      ensures f[i] != 'L' && f[i] != '\0'
    {
      if i < |a| {
        assert f[i] == a[i];
      } else if |a| + 2 <= i < |a| + 2 + |b| {
        assert f[i] == b[i - |a| - 2];
      } else if |a| + |b| + 4 <= i < |a| + |b| + 4 + |c| {
        assert f[i] == c[i - |a| - |b| - 4];
      }
    }
  }

  lemma FieldsWithout(r: WeatherServer.Response)
    requires WeatherServer.FromHandler(r)
    ensures var f := WeatherServer.FieldsBefore(r.code, r.reason, r.contentType);
            f != "" && f[|f| - 1] == '\n' && 'L' !in f && '\0' !in f
  {
    hide Plain, Dec, WeatherServer.FromHandler, WeatherServer.StatusLine, WeatherServer.FieldsBefore;
    var a, b, c := WeatherServer.StatusLine(r.code, r.reason), "Content-Type: " + r.contentType,
      WeatherServer.ORIGIN_LINE;
    FieldsPlain(r);
    LinesWithout(a, b, c);
    HeadLines(r, a, b, c, LENGTH_FIELD + " " + Dec(|r.body|));
  }

  lemma {:induction false} StatusCodeIs(code: nat, rest: string)
    ensures StatusCode("HTTP/1.1 " + Dec(code) + " " + rest) == code
  {
    hide Dec, ScanNumber;
    var h := "HTTP/1.1 " + Dec(code) + " " + rest;
    var after := " " + Dec(code) + (" " + rest);
    assert h[..7] == "HTTP/1." && h[7..] == "1" + after;
    ScanDigits("1", after);
    assert ScanInt(h[7..]).Some? && ScanInt(h[7..]).value.1 == after;
    ScanNumberIs(code, " " + rest);
    DecRoundTrip(code);
  }

  lemma {:induction false} ContentLengthIs(before: string, n: nat, rest: string)
    requires 'L' !in before && before != "" && before[|before| - 1] == '\n' && n <= SIZE_MAX
    requires rest != "" && !IsDigit(rest[0])
    ensures ContentLength(before + LENGTH_FIELD + " " + Dec(n) + rest) == n
  {
    hide Dec, ScanSize;
    var value := " " + Dec(n) + rest;
    var h := before + LENGTH_FIELD + " " + Dec(n) + rest;
    assert h == before + LENGTH_FIELD + value;
    LengthFieldAt(before, value);
    assert h[|before| + 15..] == value;
    ScanSizeIs(n, rest);
  }

  lemma HeaderHasNoNul(r: WeatherServer.Response)
    requires WeatherServer.FromHandler(r)
    ensures '\0' !in Head(r) + BLANK_LINE
  {
    FieldsWithout(r);
    DecIsPlain(|r.body|);
    hide Dec, WeatherServer.FieldsBefore, WeatherServer.FromHandler;
    var f, d := WeatherServer.FieldsBefore(r.code, r.reason, r.contentType), Dec(|r.body|);
    assert '\0' !in d;
    assert '\0' !in LENGTH_FIELD + " ";
    assert Head(r) + BLANK_LINE == f + (LENGTH_FIELD + " ") + d + BLANK_LINE;
  }

  /** The client's parser reads the status code and the length back from every response header. */
  lemma HeaderReadsBack(r: WeatherServer.Response)
    requires WeatherServer.FromHandler(r)
    ensures ParseStatus(Head(r) + BLANK_LINE) == Status(r.code, |r.body|)
  {
    var f := WeatherServer.FieldsBefore(r.code, r.reason, r.contentType);
    var h := Head(r) + BLANK_LINE;
    HeaderHasNoNul(r);
    CStringWhole(h);
    FieldsWithout(r);
    ContentLengthIs(f, |r.body|, BLANK_LINE);
    StatusFirst(r);
    hide *;
    assert h == f + LENGTH_FIELD + " " + Dec(|r.body|) + BLANK_LINE;
  }

  lemma StatusFirst(r: WeatherServer.Response)
    ensures StatusCode(Head(r) + BLANK_LINE) == r.code
  {
    hide StatusCode, Dec;
    var a := WeatherServer.StatusLine(r.code, r.reason);
    var tail := r.reason + "\r\n" + "Content-Type: " + r.contentType + "\r\n" + WeatherServer.ORIGIN_LINE + "\r\n"
                + LENGTH_FIELD + " " + Dec(|r.body|) + BLANK_LINE;
    assert Head(r) + BLANK_LINE == "HTTP/1.1 " + Dec(r.code) + " " + tail;
    StatusCodeIs(r.code, tail);
  }

  /** No 64-bit sum wraps around for a response of the handler. */
  lemma SizeFits(r: WeatherServer.Response)
    requires WeatherServer.FromHandler(r)
    ensures |Head(r)| + 4 + |r.body| <= SIZE_MAX
  {
    hide Head, WeatherServer.Header;
    WeatherServer.HeaderFits(r);
    HeadSplits(r);
  }

  /** A response is complete when all of it has arrived and not before, even when its body contains
      blank lines; then status and body are those of the response. */
  lemma ResponseReadsBack(r: WeatherServer.Response, buffer: string)
    requires WeatherServer.FromHandler(r) && buffer <= WeatherServer.Assemble(r)
    ensures HttpClient.Complete(buffer) <==> buffer == WeatherServer.Assemble(r)
    ensures buffer == WeatherServer.Assemble(r) ==>
              && HttpClient.StatusOf(buffer).code == r.code
              && HttpClient.BodyOf(buffer) == if r.body == "" then None else Some(r.body)
  {
    hide HeaderEnd, ParseStatus, Head, WeatherServer.Assemble, WeatherServer.FromHandler;
    var all := WeatherServer.Assemble(r);
    HeadSplits(r);
    HeadIsGood(r);
    HeaderEndIs(Head(r), r.body);
    HeaderReadsBack(r);
    SizeFits(r);
    var k := |Head(r)| + 4;
    assert all[..k] == Head(r) + BLANK_LINE && all[k..k + |r.body|] == r.body;
    if HeaderEnd(buffer) > 0 {
      HeaderEndStable(buffer, all);
    }
  }

  /** For every response of the handler and every way of cutting its bytes into chunks, the client
      ends with the same status code and exactly the same body. */
  lemma {:induction false} ResponseRoundTrip(r: WeatherServer.Response, chunks: seq<string>)
    requires WeatherServer.FromHandler(r) && Flatten(chunks) == WeatherServer.Assemble(r)
    ensures var reader := HttpClient.ReadAll(chunks);
            && reader.done && reader.buffer == WeatherServer.Assemble(r)
            && reader.code == r.code && reader.body == if r.body == "" then None else Some(r.body)
  {
    hide HeaderEnd, ParseStatus, WeatherServer.Assemble, WeatherServer.FromHandler;
    HttpClient.ChunksDoNotMatter(chunks);
    var reader := HttpClient.ReadAll(chunks);
    ResponseReadsBack(r, WeatherServer.Assemble(r));
    ResponseReadsBack(r, reader.buffer);
  }

  // ---------- Requests ----------

  /** A host name as a URL can hold it. */
  predicate GoodHost(host: string) {
    && 0 < |host| <= 255 && NoSpace(host) && '\0' !in host && ':' !in host && '/' !in host
  }

  /** A path as a URL can hold it. */
  predicate GoodPath(path: string) {
    path != "" && path[0] == '/' && NoSpace(path) && '\0' !in path
  }

  /** The host that the server reads: a path that contains "Host:" is taken for the field. */
  function HostSeen(path: string, host: string): string {
    match StrStr(path, "Host:")
    case None => host
    case Some(i) =>
      var t := path[i + 5..];
      if t == "" then "HTTP/1.1" else if |t| <= 255 then t else t[..255]
  }

  /** The body length that the server reads: a path that contains "Content-Length:" is taken for
      the field. */
  function LengthSeen(path: string): (n: nat)
    ensures n <= SIZE_MAX
  {
    match StrStr(path, LENGTH_FIELD)
    case None => 0
    case Some(i) =>
      match ScanSize(path[i + 15..])
      case None => 0
      case Some(n) => n
  }

  function PathSeen(path: string): string {
    if |path| <= 255 then path else path[..255]
  }

  // A request is a method, a path and a host, and then further header lines: for the client's requests
  // that is one line, for a request with a body the length of the body.

  const MIDDLE := " HTTP/1.1\r\nHost: "
  const ENDING := "\r\nConnection: close"

  /** A request line and a Host line, and whatever follows. */
  function Lines(verb: string, path: string, host: string, tail: string): string {
    verb + " " + path + MIDDLE + (host + tail)
  }

  /** The client's request without its blank line. */
  function RequestHead(path: string, host: string): string {
    Lines("GET", path, host, ENDING)
  }

  lemma RequestSplits(path: string, host: string)
    ensures HttpClient.FormatRequest(path, host) == RequestHead(path, host) + BLANK_LINE
    ensures RequestHead(path, host) + BLANK_LINE == Lines("GET", path, host, ENDING + BLANK_LINE)
  {
    var r := HttpClient.FormatRequest(path, host);
    assert "\r\nConnection: close\r\n\r\n" == ENDING + BLANK_LINE;
    assert r == "GET " + path + MIDDLE + host + (ENDING + BLANK_LINE);
    assert "GET " == "GET" + " ";
  }

  /** A method that no parser can take for a header field. */
  predicate GoodVerb(verb: string) {
    verb != "" && NoSpace(verb) && '\0' !in verb && ':' !in verb
  }

  /** The method that the server reads: seven characters of it. */
  function VerbSeen(verb: string): string {
    if |verb| <= 7 then verb else verb[..7]
  }

  /** The path that the server reads: behind a longer method it is the rest of the method. */
  function TargetSeen(verb: string, path: string): string {
    if |verb| <= 7 then PathSeen(path) else PathSeen(verb[7..])
  }

  lemma NoSpaceNoCr(s: string)
    requires NoSpace(s)
    ensures forall i | 0 <= i < |s| :: s[i] != '\r' && s[i] != '\n' && s[i] != ' '
  {
    assert forall i | 0 <= i < |s| :: s[i] in s;
  }

  lemma NoCrIsGood(s: string)
    requires forall i | 0 <= i < |s| :: s[i] != '\r'
    ensures GoodHead(s)
  {
  }

  lemma NoCrJoin(a: string, b: string)
    requires (forall i | 0 <= i < |a| :: a[i] != '\r') && forall i | 0 <= i < |b| :: b[i] != '\r'
    ensures forall i | 0 <= i < |a + b| :: (a + b)[i] != '\r'
  {
  }

  lemma RequestLinesGood(verb: string, path: string, host: string)
    requires NoSpace(verb) && NoSpace(path) && NoSpace(host)
    ensures GoodHead(verb + " " + path + " HTTP/1.1") && GoodHead("Host: " + host)
  {
    NoSpaceNoCr(verb);
    NoSpaceNoCr(path);
    NoSpaceNoCr(host);
    hide NoSpace, GoodHead;
    NoCrJoin(verb, " ");
    NoCrJoin(verb + " ", path);
    NoCrJoin(verb + " " + path, " HTTP/1.1");
    NoCrJoin("Host: ", host);
    NoCrIsGood(verb + " " + path + " HTTP/1.1");
    NoCrIsGood("Host: " + host);
  }

  lemma LinesAreGood(verb: string, path: string, host: string, line: string)
    requires NoSpace(verb) && NoSpace(path) && NoSpace(host) && GoodHead(line) && line != "" && line[0] != '\r'
    ensures GoodHead(Lines(verb, path, host, "\r\n" + line))
  {
    RequestLinesGood(verb, path, host);
    hide GoodHead, NoSpace;
    var a, b := verb + " " + path + " HTTP/1.1", "Host: " + host;
    GoodJoin(a, b);
    GoodJoin(a + "\r\n" + b, line);
    assert MIDDLE == " HTTP/1.1" + "\r\n" + "Host: ";
    assert Lines(verb, path, host, "\r\n" + line) == a + "\r\n" + b + "\r\n" + line;
  }

  lemma RequestHeadIsGood(path: string, host: string)
    requires NoSpace(path) && NoSpace(host)
    ensures GoodHead(RequestHead(path, host))
  {
    NoCrIsGood("Connection: close");
    GetIsGood();
    hide GoodHead, NoSpace;
    LinesAreGood("GET", path, host, "Connection: close");
    assert ENDING == "\r\n" + "Connection: close";
  }

  lemma GetIsGood()
    ensures GoodVerb("GET") && VerbSeen("GET") == "GET"
  {
  }

  lemma MiddleFacts(i: nat)
    requires i < 17
    ensures MIDDLE[i] == ':' <==> i == 15
    ensures i < 11 && i != 1 ==> MIDDLE[i] != 'H'
    ensures MIDDLE[0] == ' ' && MIDDLE[2] == 'T' && MIDDLE[14] == 't' && MIDDLE[11..16] == "Host:"
  {
  }

  /** The name of a field with its colon. */
  ghost predicate FieldName(needle: string) {
    |needle| > 0 && ' ' !in needle && needle[|needle| - 1] == ':'
  }

  /** The name of a field that starts in the request line lies in the path. */
  lemma FieldInPath(verb: string, path: string, rest: string, needle: string, j: nat)
    requires NoSpace(path) && ':' !in verb && FieldName(needle)
    requires j < |verb| + 1 + |path|
    ensures Occurs(verb + " " + path + MIDDLE + rest, needle, j)
            <==> j > |verb| && Occurs(path, needle, j - |verb| - 1)
  {
    var s := verb + " " + path + MIDDLE + rest;
    var v, x := |verb|, |verb| + 1 + |path|;
    MiddleFacts(0);
    if j > v && j + |needle| <= x {
      assert s[j..j + |needle|] == path[j - v - 1..j - v - 1 + |needle|];
    } else if j + |needle| <= v {
      var k := |needle| - 1;
      assert s[j + k] == verb[j + k] && verb[j + k] in verb;
      Mismatch(s, needle, j, k);
    } else {
      var k := if j <= v then v - j else x - j;
      assert s[j + k] == ' ' && needle[k] in needle;
      Mismatch(s, needle, j, k);
    }
  }

  lemma FieldNames()
    ensures FieldName("Host:") && FieldName(LENGTH_FIELD)
  {
  }

  /** The Host field is found in the path if it is there, and else behind the request line. */
  lemma HostFieldAt(verb: string, path: string, rest: string)
    requires NoSpace(path) && ':' !in verb
    ensures StrStr(verb + " " + path + MIDDLE + rest, "Host:")
            == match StrStr(path, "Host:")
               case Some(i) => Some(|verb| + 1 + i)
               case None => Some(|verb| + 12 + |path|)
  {
    hide NoSpace, StrStr;
    FieldNames();
    var s := verb + " " + path + MIDDLE + rest;
    var q := match StrStr(path, "Host:") case Some(i) => |verb| + 1 + i case None => |verb| + 12 + |path|;
    MiddleFacts(0);
    if StrStr(path, "Host:").None? {
      assert s[q..q + 5] == MIDDLE[11..16];
    } else {
      FieldInPath(verb, path, rest, "Host:", q);
    }
    forall j: nat | j < q
      ensures !Occurs(s, "Host:", j)
    {
      if j < |verb| + 1 + |path| {
        FieldInPath(verb, path, rest, "Host:", j);
      } else {
        HostNotInMiddle(verb, path, rest, j);
      }
    }
    StrStrIs(s, "Host:", q);
  }

  lemma HostNotInMiddle(verb: string, path: string, rest: string, j: nat)
    requires |verb| + 1 + |path| <= j < |verb| + 12 + |path|
    ensures !Occurs(verb + " " + path + MIDDLE + rest, "Host:", j)
  {
    var s := verb + " " + path + MIDDLE + rest;
    var x := |verb| + 1 + |path|;
    MiddleFacts(j - x);
    assert s[j] == MIDDLE[j - x];
    if j - x == 1 {
      assert s[j + 1] == MIDDLE[2];
      Mismatch(s, "Host:", j, 1);
    } else {
      Mismatch(s, "Host:", j, 0);
    }
  }

  /** A length field in the path is the first one of the request. */
  lemma LengthFieldInPath(verb: string, path: string, rest: string, i: nat)
    requires NoSpace(path) && ':' !in verb && StrStr(path, LENGTH_FIELD) == Some(i)
    ensures StrStr(verb + " " + path + MIDDLE + rest, LENGTH_FIELD) == Some(|verb| + 1 + i)
  {
    hide NoSpace, StrStr;
    FieldNames();
    var s, q := verb + " " + path + MIDDLE + rest, |verb| + 1 + i;
    assert Occurs(path, LENGTH_FIELD, i);
    FieldInPath(verb, path, rest, LENGTH_FIELD, q);
    forall j: nat | j < q
      ensures !Occurs(s, LENGTH_FIELD, j)
    {
      FieldInPath(verb, path, rest, LENGTH_FIELD, j);
    }
    StrStrIs(s, LENGTH_FIELD, q);
  }

  /** No colon among the first m characters of t has an 'h' in front of it. */
  ghost predicate NoField(t: string, m: nat) {
    forall i | 0 <= i < |t| && i < m && t[i] == ':' :: i > 0 && t[i - 1] != 'h'
  }

  /** Behind the path every colon up to character m of the tail has the wrong character in front. */
  lemma LengthNotBehindPath(verb: string, path: string, host: string, tail: string, m: nat, j: nat)
    requires ':' !in host && NoField(tail, m)
    requires |verb| + 1 + |path| <= j && j + 14 < |verb| + 18 + |path| + |host| + m
    ensures !Occurs(Lines(verb, path, host, tail), LENGTH_FIELD, j)
  {
    var s := Lines(verb, path, host, tail);
    var p := j + 14;
    var x, y, z := |verb| + 1 + |path|, |verb| + 18 + |path|, |verb| + 18 + |path| + |host|;
    if p < y {
      MiddleFacts(p - x);
      assert s[p] == MIDDLE[p - x] && s[x + 14] == MIDDLE[14];
      Mismatch(s, LENGTH_FIELD, j, if p - x == 15 then 13 else 14);
    } else if p < z {
      assert s[p] == host[p - y] && host[p - y] in host;
      Mismatch(s, LENGTH_FIELD, j, 14);
    } else if p < |s| {
      assert s[p] == tail[p - z] && (p > z ==> s[p - 1] == tail[p - z - 1]);
      Mismatch(s, LENGTH_FIELD, j, if tail[p - z] == ':' then 13 else 14);
    }
  }

  lemma LengthNotBefore(verb: string, path: string, host: string, tail: string, m: nat)
    requires NoSpace(path) && ':' !in verb && ':' !in host && NoField(tail, m)
    requires StrStr(path, LENGTH_FIELD).None?
    ensures forall j: nat | j + 14 < |verb| + 18 + |path| + |host| + m ::
              !Occurs(Lines(verb, path, host, tail), LENGTH_FIELD, j)
  {
    hide NoSpace, StrStr, NoField;
    FieldNames();
    forall j: nat | j + 14 < |verb| + 18 + |path| + |host| + m
      ensures !Occurs(Lines(verb, path, host, tail), LENGTH_FIELD, j)
    {
      if j < |verb| + 1 + |path| {
        FieldInPath(verb, path, host + tail, LENGTH_FIELD, j);
      } else {
        LengthNotBehindPath(verb, path, host, tail, m, j);
      }
    }
  }

  /** In a request of the client a length field is found in the path or not at all. */
  lemma LengthFieldFound(path: string, host: string)
    requires NoSpace(path) && ':' !in host
    ensures StrStr(RequestHead(path, host) + BLANK_LINE, LENGTH_FIELD)
            == match StrStr(path, LENGTH_FIELD) case Some(i) => Some(4 + i) case None => None
  {
    EndHasNoField();
    RequestSplits(path, host);
    hide NoSpace, StrStr, NoField, RequestHead;
    var tail := ENDING + BLANK_LINE;
    match StrStr(path, LENGTH_FIELD)
    case Some(i) =>
      LengthFieldInPath("GET", path, host + tail, i);
    case None =>
      LengthNotBefore("GET", path, host, tail, |tail|);
      assert forall j: nat :: !Occurs(Lines("GET", path, host, tail), LENGTH_FIELD, j);
  }

  lemma EndHasNoField()
    ensures NoField(ENDING + BLANK_LINE, |ENDING + BLANK_LINE|)
  {
  }

  lemma {:induction false} TakeDigitsStop(u: string, r: string)
    requires r != "" && !IsDigit(r[0])
    ensures TakeDigits(u + r) == TakeDigits(u)
  {
    if u == "" {
      assert u + r == r;
    } else if IsDigit(u[0]) {
      assert (u + r)[1..] == u[1..] + r;
      TakeDigitsStop(u[1..], r);
    }
  }

  lemma ScanNumberStop(t: string, r: string)
    requires t != "" && !IsSpace(t[0]) && r != "" && !IsDigit(r[0])
    ensures ScanNumber(t + r).NoNumber? <==> ScanNumber(t).NoNumber?
    ensures ScanNumber(t).Number? ==>
              && ScanNumber(t + r).negative == ScanNumber(t).negative
              && ScanNumber(t + r).digits == ScanNumber(t).digits
  {
    hide TakeDigits, SkipSpaces, IsDigit, IsSpace;
    var s := t + r;
    assert s[0] == t[0] && s[1..] == t[1..] + r;
    SkipNone(t);
    SkipNone(s);
    TakeDigitsStop(t, r);
    TakeDigitsStop(t[1..], r);
  }

  lemma NoNumberIn(s: string)
    requires s == "" || s[0] == 'H'
    ensures ScanNumber(s) == NoNumber
  {
    hide SkipSpaces;
    SkipNone(s);
  }

  lemma NoNumberInMiddle(rest: string)
    ensures ScanNumber(MIDDLE + rest) == NoNumber && ScanNumber("") == NoNumber
  {
    hide ScanNumber;
    var after := "HTTP/1.1\r\nHost: " + rest;
    assert MIDDLE + rest == " " + after;
    ScanSpace(after);
    NoNumberIn(after);
    NoNumberIn("");
  }

  /** A number at the end of the path is read up to the space behind the path. */
  lemma ScanSizeInPath(t: string, rest: string)
    requires NoSpace(t)
    ensures ScanSize(t + (MIDDLE + rest)) == ScanSize(t)
  {
    hide ScanNumber, DigitsValue;
    if t == "" {
      NoNumberInMiddle(rest);
      assert t + (MIDDLE + rest) == MIDDLE + rest;
    } else {
      assert t[0] in t;
      MiddleFacts(0);
      ScanNumberStop(t, MIDDLE + rest);
    }
  }

  lemma LinesHaveNoNul(verb: string, path: string, host: string, tail: string)
    requires '\0' !in verb && '\0' !in path && '\0' !in host && '\0' !in tail
    ensures '\0' !in Lines(verb, path, host, tail)
  {
    assert '\0' !in " " && '\0' !in MIDDLE;
  }

  /** Method, path and host that the server's parser makes of a request, for every method, path and host:
      method and path are cut, and a path that contains the name of a field is taken for that field. */
  lemma LinesReadBack(verb: string, path: string, host: string, tail: string)
    requires GoodVerb(verb) && GoodPath(path) && GoodHost(host)
    requires '\0' !in tail && tail != "" && IsSpace(tail[0])
    ensures var s := Lines(verb, path, host, tail);
            ParseRequest(s) == Request(VerbSeen(verb), TargetSeen(verb, path), HostSeen(path, host), ContentLength(s))
  {
    hide ScanToken, StrStr, ContentLength, Lines, NoSpace;
    var s := Lines(verb, path, host, tail);
    LinesHaveNoNul(verb, path, host, tail);
    CStringWhole(s);
    RequestLineReadsBack(verb, path, host, tail);
    HostReadsBack(verb, path, host, tail);
  }

  /** What the server's parser makes of the client's request. */
  lemma RequestReadsBack(path: string, host: string)
    requires GoodPath(path) && GoodHost(host)
    ensures ParseRequest(RequestHead(path, host) + BLANK_LINE)
            == Request("GET", PathSeen(path), HostSeen(path, host), LengthSeen(path))
  {
    RequestSplits(path, host);
    GetIsGood();
    EndingFacts();
    hide ParseRequest, GoodVerb, RequestHead, ContentLength, Lines;
    LinesReadBack("GET", path, host, ENDING + BLANK_LINE);
    LengthReadsBack(path, host);
  }

  lemma EndingFacts()
    ensures var tail := ENDING + BLANK_LINE; tail != "" && IsSpace(tail[0]) && '\0' !in tail
  {
  }

  lemma RequestLineReadsBack(verb: string, path: string, host: string, tail: string)
    requires GoodVerb(verb) && NoSpace(path) && path != ""
    ensures var s := Lines(verb, path, host, tail);
            && ScanToken(s, 7).0 == VerbSeen(verb) != ""
            && ScanToken(ScanToken(s, 7).1, 255).0 == TargetSeen(verb, path)
  {
    hide ScanToken, NoSpace;
    var afterPath := MIDDLE + (host + tail);
    var rest := " " + path + afterPath;
    assert Lines(verb, path, host, tail) == verb + rest;
    hide Lines;
    if |verb| <= 7 {
      ScanTokenIs(verb, rest, 7);
      ScanTokenIs(path, afterPath, 255);
    } else {
      ScanTokenCut(verb, rest, 7);
      NoSpaceBehind(verb, 7);
      ScanTokenIs(verb[7..], rest, 255);
    }
  }

  /** The length that is read from a field in the path. */
  lemma LengthInPath(verb: string, path: string, rest: string, i: nat)
    requires NoSpace(path) && ':' !in verb && StrStr(path, LENGTH_FIELD) == Some(i)
    ensures ContentLength(verb + " " + path + MIDDLE + rest) == LengthSeen(path)
  {
    hide ScanSize, StrStr, NoSpace;
    LengthFieldInPath(verb, path, rest, i);
    assert Occurs(path, LENGTH_FIELD, i);
    NoSpaceBehind(path, i + 15);
    BehindPart(verb, path, i + 15, rest);
    ScanSizeInPath(path[i + 15..], rest);
  }

  lemma LengthReadsBack(path: string, host: string)
    requires NoSpace(path) && ':' !in host
    ensures ContentLength(RequestHead(path, host) + BLANK_LINE) == LengthSeen(path)
  {
    hide ScanSize, StrStr, NoSpace;
    RequestSplits(path, host);
    LengthFieldFound(path, host);
    match StrStr(path, LENGTH_FIELD)
    case None =>
    case Some(i) =>
      LengthInPath("GET", path, host + (ENDING + BLANK_LINE), i);
  }

  lemma HostReadsBack(verb: string, path: string, host: string, tail: string)
    requires NoSpace(path) && ':' !in verb && NoSpace(host) && 0 < |host| <= 255
    requires tail != "" && IsSpace(tail[0])
    ensures var s := Lines(verb, path, host, tail);
            && StrStr(s, "Host:").Some? && StrStr(s, "Host:").value + 5 <= |s|
            && ScanToken(s[StrStr(s, "Host:").value + 5..], 255).0 == HostSeen(path, host)
  {
    hide ScanToken, StrStr, NoSpace, IsSpace;
    var s := Lines(verb, path, host, tail);
    HostFieldAt(verb, path, host + tail);
    match StrStr(path, "Host:")
    case None =>
      BehindHostName(verb, path, host + tail);
      assert s[|verb| + 17 + |path|..] == " " + host + tail;
      ScanTokenIs(host, tail, 255);
    case Some(i) =>
      assert Occurs(path, "Host:", i);
      NoSpaceBehind(path, i + 5);
      BehindPart(verb, path, i + 5, host + tail);
      HostTokenInPath(path[i + 5..], host + tail);
  }

  lemma BehindHostName(verb: string, path: string, rest: string)
    ensures (verb + " " + path + MIDDLE + rest)[|verb| + 17 + |path|..] == " " + rest
  {
    var front := verb + " " + path + MIDDLE[..16];
    assert MIDDLE == MIDDLE[..16] + " ";
    assert verb + " " + path + MIDDLE + rest == front + (" " + rest);
  }

  lemma BehindPart(verb: string, path: string, k: nat, rest: string)
    requires k <= |path|
    ensures (verb + " " + path + MIDDLE + rest)[|verb| + 1 + k..] == path[k..] + (MIDDLE + rest)
  {
    assert verb + " " + path + MIDDLE + rest == (verb + " " + path[..k]) + (path[k..] + (MIDDLE + rest));
  }

  lemma NoSpaceBehind(s: string, i: nat)
    requires NoSpace(s) && i <= |s|
    ensures NoSpace(s[i..])
  {
  }

  lemma HostTokenInPath(t: string, rest: string)
    requires NoSpace(t)
    ensures ScanToken(t + (MIDDLE + rest), 255).0 == if t == "" then "HTTP/1.1" else if |t| <= 255 then t else t[..255]
  {
    hide ScanToken;
    if t == "" {
      var after := "\r\nHost: " + rest;
      assert t + (MIDDLE + rest) == " " + "HTTP/1.1" + after;
      ScanTokenIs("HTTP/1.1", after, 255);
    } else {
      ScanTokenIs(t, MIDDLE + rest, 255);
    }
  }

  /** The paths that arrive: short enough, and not taken for a field with another value. */
  predicate Arrives(path: string, host: string) {
    |path| <= 255 && HostSeen(path, host) == host && LengthSeen(path) == 0
  }

  /** The server reads exactly what the client meant if and only if the path is one of those. */
  lemma RequestArrivesIff(path: string, host: string)
    requires GoodPath(path) && GoodHost(host)
    ensures ParseRequest(RequestHead(path, host) + BLANK_LINE) == Request("GET", path, host, 0) <==> Arrives(path, host)
  {
    hide ParseRequest, GoodPath, GoodHost, HostSeen, LengthSeen;
    RequestReadsBack(path, host);
  }

  /** A path without the names of the two fields arrives if it is short enough. */
  lemma OrdinaryPathArrives(path: string, host: string)
    requires |path| <= 255 && StrStr(path, "Host:").None? && StrStr(path, LENGTH_FIELD).None?
    ensures Arrives(path, host)
  {
  }

  /** A request whose path claims a body is never complete: the server waits for bytes that the
      client does not send. */
  lemma ClaimedBodyNeverComes()
    ensures var path := "/?Content-Length:5";
            && GoodPath(path) && LengthSeen(path) == 5 && !Arrives(path, "host")
            && !HttpServer.Complete(HttpClient.FormatRequest(path, "host"))
  {
    var path := "/?Content-Length:5";
    FiveIsRead();
    GoodLiterals();
    RequestLength(path, "host");
    hide ScanSize, GoodPath, GoodHost, HttpServer.Complete, HttpClient.FormatRequest;
    assert "/?" + LENGTH_FIELD + "5" == path && "/?Content-Length:"[..2] == "/?";
    FirstInPath(path, "5");
    assert path[17..] == "5";
    RequestIsCompleteIff(path, "host");
  }

  lemma FirstInPath(path: string, rest: string)
    requires path == "/?" + LENGTH_FIELD + rest
    ensures StrStr(path, LENGTH_FIELD) == Some(2)
  {
    assert path[2..17] == LENGTH_FIELD;
    Mismatch(path, LENGTH_FIELD, 0, 0);
    Mismatch(path, LENGTH_FIELD, 1, 0);
    StrStrIs(path, LENGTH_FIELD, 2);
  }

  lemma FiveIsRead()
    ensures ScanSize("5") == Some(5)
  {
    assert Dec(5) == "5";
    ScanDigits("5", "");
    assert "5" + "" == "5";
    DecRoundTrip(5);
  }

  /** When the client's whole request has arrived, the server is done waiting if and only if the
      path claims no body, or one so long that its end wraps around to before the end of the header. */
  lemma RequestIsCompleteIff(path: string, host: string)
    requires GoodPath(path) && GoodHost(host)
    ensures var s := HttpClient.FormatRequest(path, host);
            && HeaderEnd(s) == |s|
            && HttpServer.RequestIn(s) == Request("GET", PathSeen(path), HostSeen(path, host), LengthSeen(path))
            && (HttpServer.Complete(s) <==> LengthSeen(path) == 0 || |s| + LengthSeen(path) > SIZE_MAX)
  {
    hide ParseRequest, HeaderEnd, RequestHead, HttpClient.FormatRequest, HostSeen, LengthSeen;
    var s := HttpClient.FormatRequest(path, host);
    RequestSplits(path, host);
    RequestHeadIsGood(path, host);
    HeaderEndIs(RequestHead(path, host), "");
    assert s + "" == s;
    RequestReadsBack(path, host);
    assert s[..|s|] == s;
  }

  lemma RequestLength(path: string, host: string)
    ensures |HttpClient.FormatRequest(path, host)| <= |path| + |host| + 100
  {
  }

  /** The second case is real: a length of -1 is read as the largest size. */
  lemma NegativeLengthWraps()
    ensures var path := "/?Content-Length:-1";
            GoodPath(path) && LengthSeen(path) == SIZE_MAX
            && HttpServer.Complete(HttpClient.FormatRequest(path, "host"))
  {
    var path := "/?Content-Length:-1";
    GoodLiterals();
    NegativeLength(path);
    hide GoodPath, GoodHost, LengthSeen, HttpServer.Complete, HttpClient.FormatRequest;
    RequestIsCompleteIff(path, "host");
    SomeRequest(path, "host");
  }

  lemma SomeRequest(path: string, host: string)
    ensures |HttpClient.FormatRequest(path, host)| > 0
  {
  }

  lemma NegativeLength(path: string)
    requires path == "/?Content-Length:-1"
    ensures LengthSeen(path) == SIZE_MAX
  {
    MinusOneIsRead();
    hide ScanSize;
    assert "/?" + LENGTH_FIELD + "-1" == path;
    FirstInPath(path, "-1");
    assert path[17..] == "-1";
  }

  lemma GoodLiterals()
    ensures GoodPath("/?Content-Length:5") && GoodPath("/?Content-Length:-1") && GoodHost("host")
  {
  }

  lemma MinusOneIsRead()
    ensures ScanSize("-1") == Some(SIZE_MAX)
  {
    assert Dec(1) == "1" && "-1"[1..] == "1" + "";
    SkipNone("-1");
    TakeDigitsIs("1", "");
    DecRoundTrip(1);
  }

  // ---------- Requests with a body ----------

  /** The header of a request that states a length, without its blank line. */
  function BodyHead(verb: string, path: string, host: string, n: nat): string {
    Lines(verb, path, host, "\r\n" + LENGTH_FIELD + " " + Dec(n))
  }

  /** The length that the server reads: a path with the name of the field comes first. */
  function StatedLength(path: string, n: nat): nat {
    if StrStr(path, LENGTH_FIELD).None? then n else LengthSeen(path)
  }

  lemma BodyHeadIsGood(verb: string, path: string, host: string, n: nat)
    requires NoSpace(verb) && NoSpace(path) && NoSpace(host)
    ensures GoodHead(BodyHead(verb, path, host, n))
  {
    LengthLineIsGood(n);
    hide GoodHead, NoSpace, Dec, Lines;
    var line := LENGTH_FIELD + " " + Dec(n);
    assert "\r\n" + line == "\r\n" + LENGTH_FIELD + " " + Dec(n);
    LinesAreGood(verb, path, host, line);
  }

  /** The tail of such a header, with its blank line. */
  function LengthTail(n: nat): string {
    "\r\n" + LENGTH_FIELD + (" " + Dec(n) + BLANK_LINE)
  }

  lemma BodyHeadSplits(verb: string, path: string, host: string, n: nat)
    ensures BodyHead(verb, path, host, n) + BLANK_LINE == Lines(verb, path, host, LengthTail(n))
  {
    hide Dec;
    var tail := "\r\n" + LENGTH_FIELD + " " + Dec(n);
    assert tail + BLANK_LINE == LengthTail(n);
    assert verb + " " + path + MIDDLE + (host + tail) + BLANK_LINE
        == verb + " " + path + MIDDLE + (host + (tail + BLANK_LINE));
  }

  lemma LengthTailFacts(n: nat)
    ensures NoField(LengthTail(n), 16) && LengthTail(n) != "" && IsSpace(LengthTail(n)[0]) && '\0' !in LengthTail(n)
  {
    DecIsPlain(n);
    hide Dec;
    var front := "\r\n" + LENGTH_FIELD;
    assert '\0' !in front && '\0' !in " " && '\0' !in Dec(n) && '\0' !in BLANK_LINE;
    assert forall i | 0 <= i < 16 :: LengthTail(n)[i] == front[i] && front[i] != ':';
  }

  lemma StatedLengthReadsBack(verb: string, path: string, host: string, n: nat)
    requires NoSpace(path) && ':' !in verb && ':' !in host && n <= SIZE_MAX
    ensures ContentLength(Lines(verb, path, host, LengthTail(n))) == StatedLength(path, n)
  {
    hide NoSpace, StrStr, NoField, Dec, ScanSize;
    var tail := LengthTail(n);
    var s := Lines(verb, path, host, tail);
    match StrStr(path, LENGTH_FIELD)
    case Some(i) =>
      LengthInPath(verb, path, host + tail, i);
    case None =>
      var q := |verb| + 20 + |path| + |host|;
      LengthTailFacts(n);
      LengthNotBefore(verb, path, host, tail, 16);
      var value := " " + Dec(n) + BLANK_LINE;
      var front := verb + " " + path + MIDDLE + host + "\r\n";
      assert s == front + LENGTH_FIELD + value && |front| == q;
      hide Lines, LengthTail;
      assert s[q..q + 15] == LENGTH_FIELD && s[q + 15..] == value;
      StrStrIs(s, LENGTH_FIELD, q);
      ScanSizeIs(n, BLANK_LINE);
  }

  /** What the server's parser makes of every request that states a length. */
  lemma BodyRequestReadsBack(verb: string, path: string, host: string, n: nat)
    requires GoodVerb(verb) && GoodPath(path) && GoodHost(host) && n <= SIZE_MAX
    ensures ParseRequest(BodyHead(verb, path, host, n) + BLANK_LINE)
            == Request(VerbSeen(verb), TargetSeen(verb, path), HostSeen(path, host), StatedLength(path, n))
  {
    hide ParseRequest, ContentLength, Lines, BodyHead, LengthTail, NoField, NoSpace;
    BodyHeadSplits(verb, path, host, n);
    LengthTailFacts(n);
    LinesReadBack(verb, path, host, LengthTail(n));
    StatedLengthReadsBack(verb, path, host, n);
  }

  /** When a buffer is complete, in terms of its header, of the request in it and of what follows. */
  lemma CompleteBehind(head: string, b: string, q: Request)
    requires HeaderEnd(head + b) == |head| > 0 && HttpServer.RequestIn(head + b) == q && q.contentLength <= SIZE_MAX
    ensures |head| + q.contentLength <= SIZE_MAX ==> (HttpServer.Complete(head + b) <==> q.contentLength <= |b|)
    ensures |head| + q.contentLength > SIZE_MAX ==> (HttpServer.Complete(head + b) <==> q.verb == "GET")
    ensures HttpServer.Complete(head + b) && q.verb == "GET" ==> HttpServer.BodyIn(head + b) == None
    ensures HttpServer.Complete(head + b) && q.verb != "GET" ==>
              q.contentLength <= |b| && HttpServer.BodyIn(head + b) == Some(b[..q.contentLength])
  {
    hide HeaderEnd, HttpServer.RequestIn;
    var s := head + b;
    var sum := SizeSum(|head|, q.contentLength);
    assert |head| + q.contentLength > SIZE_MAX ==> sum < |head| <= |s|;
    if q.contentLength <= |b| {
      assert s[|head|..|head| + q.contentLength] == b[..q.contentLength];
    }
  }

  /** A request is complete when all of its body has arrived and not before. */
  lemma WholeBody(head: string, b: string, q: Request, part: string)
    requires HeaderEnd(head + b) == |head| > 0 && HttpServer.RequestIn(head + b) == q
    requires q.contentLength == |b| && |head| + |b| <= SIZE_MAX && part <= head + b
    ensures HttpServer.Complete(part) <==> part == head + b
    ensures HttpServer.BodyIn(head + b) == if q.verb == "GET" then None else Some(b)
  {
    hide HeaderEnd, HttpServer.RequestIn, HttpServer.BodyIn;
    CompleteBehind(head, b, q);
    assert b[..|b|] == b;
    var s := head + b;
    assert s[..|s|] == s && part == s[..|part|];
    if HeaderEnd(part) > 0 {
      HeaderEndStable(part, s);
      HttpServer.RequestInStable(part, s);
    }
  }

  /** Whatever follows the header: the request is complete as soon as the stated number of bytes is
      there, and its body are those bytes. A length so long that its end wraps around completes a GET
      request at once, and no other ever. */
  lemma BodyRequestIsCompleteIff(verb: string, path: string, host: string, n: nat, b: string)
    requires GoodVerb(verb) && GoodPath(path) && GoodHost(host) && n <= SIZE_MAX
    ensures var head := BodyHead(verb, path, host, n) + BLANK_LINE;
            var s, k := head + b, StatedLength(path, n);
            && HeaderEnd(s) == |head|
            && HttpServer.RequestIn(s) == Request(VerbSeen(verb), TargetSeen(verb, path), HostSeen(path, host), k)
            && (|head| + k <= SIZE_MAX ==> (HttpServer.Complete(s) <==> k <= |b|))
            && (|head| + k > SIZE_MAX ==> (HttpServer.Complete(s) <==> VerbSeen(verb) == "GET"))
            && (HttpServer.Complete(s) ==>
                  HttpServer.BodyIn(s) == if VerbSeen(verb) == "GET" then None else Some(b[..k]))
  {
    hide HeaderEnd, BodyHead, HostSeen, TargetSeen, VerbSeen, GoodVerb, GoodPath, GoodHost,
      HttpServer.RequestIn, HttpServer.Complete, HttpServer.BodyIn;
    var head := BodyHead(verb, path, host, n) + BLANK_LINE;
    var s, k := head + b, StatedLength(path, n);
    BodyRequestIn(verb, path, host, n, b);
    StatedLengthFits(path, n);
    hide StatedLength;
    CompleteBehind(head, b, HttpServer.RequestIn(s));
  }

  lemma BodyRequestIn(verb: string, path: string, host: string, n: nat, b: string)
    requires GoodVerb(verb) && GoodPath(path) && GoodHost(host) && n <= SIZE_MAX
    ensures var head := BodyHead(verb, path, host, n) + BLANK_LINE;
            && HeaderEnd(head + b) == |head| > 0
            && HttpServer.RequestIn(head + b)
               == Request(VerbSeen(verb), TargetSeen(verb, path), HostSeen(path, host), StatedLength(path, n))
  {
    hide ParseRequest, HeaderEnd, BodyHead, HostSeen, TargetSeen, VerbSeen, StatedLength;
    var head := BodyHead(verb, path, host, n) + BLANK_LINE;
    BodyHeadIsGood(verb, path, host, n);
    HeaderEndIs(BodyHead(verb, path, host, n), b);
    assert (head + b)[..|head|] == head;
    BodyRequestReadsBack(verb, path, host, n);
  }

  lemma StatedLengthFits(path: string, n: nat)
    requires n <= SIZE_MAX
    ensures StatedLength(path, n) <= SIZE_MAX
  {
  }

  lemma ArrivesAsMeant(verb: string, path: string, host: string, n: nat)
    requires |verb| <= 7 && Arrives(path, host) && StrStr(path, LENGTH_FIELD).None?
    ensures VerbSeen(verb) == verb && TargetSeen(verb, path) == path && HostSeen(path, host) == host
    ensures StatedLength(path, n) == n
  {
  }

  /** No part of a request with a body is complete, and the whole arrives as it was meant. */
  lemma BodyRequestRoundTrip(verb: string, path: string, host: string, b: string, part: string)
    requires GoodVerb(verb) && |verb| <= 7 && GoodPath(path) && GoodHost(host) && Arrives(path, host)
    requires StrStr(path, LENGTH_FIELD).None?
    requires |BodyHead(verb, path, host, |b|)| + 4 + |b| <= SIZE_MAX
    requires part <= BodyHead(verb, path, host, |b|) + BLANK_LINE + b
    ensures var s := BodyHead(verb, path, host, |b|) + BLANK_LINE + b;
            && (HttpServer.Complete(part) <==> part == s)
            && HttpServer.RequestIn(s) == Request(verb, path, host, |b|)
            && HttpServer.Complete(s)
            && HttpServer.BodyIn(s) == if verb == "GET" then None else Some(b)
  {
    ArrivesAsMeant(verb, path, host, |b|);
    hide HeaderEnd, BodyHead, GoodVerb, GoodPath, GoodHost, StrStr, Arrives, VerbSeen, TargetSeen, HostSeen,
      StatedLength, HttpServer.Complete, HttpServer.BodyIn, HttpServer.RequestIn;
    var head := BodyHead(verb, path, host, |b|) + BLANK_LINE;
    BodyRequestIn(verb, path, host, |b|, b);
    WholeBody(head, b, Request(verb, path, host, |b|), part);
    WholeBody(head, b, Request(verb, path, host, |b|), head + b);
  }

  // ---------- URLs ----------

  datatype Scheme = NoScheme | Http | Https

  function SchemeText(scheme: Scheme): string {
    match scheme
    case NoScheme => ""
    case Http => "http://"
    case Https => "https://"
  }

  function PortText(port: Option<string>): string {
    if port.None? then "" else ":" + port.value
  }

  function JoinUrl(scheme: Scheme, host: string, port: Option<string>, path: string): string {
    SchemeText(scheme) + host + PortText(port) + path
  }

  predicate GoodPort(port: Option<string>) {
    port.Some? ==> 0 < |port.value| < 16 && '/' !in port.value
  }

  lemma GoodUrl(scheme: Scheme, host: string, port: Option<string>, path: string)
    requires GoodHost(host) && GoodPort(port) && GoodPath(path)
    ensures Delimited(host, port, path) && !TakenForScheme(scheme, host, port, path)
  {
  }

  /** The parts of a URL as far as the delimiters tell them apart. */
  predicate Delimited(host: string, port: Option<string>, path: string) {
    && ':' !in host && '/' !in host && (port.Some? ==> '/' !in port.value) && (path == "" || path[0] == '/')
  }

  /** The one case in which a URL without a scheme reads as one with a scheme. */
  predicate TakenForScheme(scheme: Scheme, host: string, port: Option<string>, path: string) {
    scheme == NoScheme && (host == "http" || host == "https") && port == Some("") && "//" <= path
  }

  /** A URL without a scheme begins with one only if the host is its name and the rest goes on so. */
  lemma SchemeSplits(host: string, rest: string, name: string)
    requires ':' !in host && '/' !in host && ':' !in name && '/' !in name
    requires rest == "" || rest[0] == '/' || rest[0] == ':'
    ensures name + "://" <= host + rest ==> host == name && "://" <= rest
  {
    var scheme, url := name + "://", host + rest;
    var n := |name|;
    assert scheme[n] == ':';
    if |host| > n {
      assert url[n] == host[n] && host[n] in host;
    } else if |host| < n {
      assert scheme[|host|] == name[|host|] && name[|host|] in name;
      assert rest != "" ==> url[|host|] == rest[0];
    } else if scheme <= url {
      assert url[..n + 3] == scheme;
      assert url[..n] == host && scheme[..n] == name;
      assert url[n..n + 3] == rest[..3] && scheme[n..] == "://";
    }
  }

  lemma NoSchemeIsFound(host: string, port: Option<string>, path: string)
    requires Delimited(host, port, path) && !TakenForScheme(NoScheme, host, port, path)
    ensures var url := host + (PortText(port) + path);
            !("http://" <= url) && !("https://" <= url)
  {
    var rest := PortText(port) + path;
    SchemeSplits(host, rest, "http");
    SchemeSplits(host, rest, "https");
    AfterColon(port, path);
    assert "http" + "://" == "http://" && "https" + "://" == "https://";
  }

  lemma AfterColon(port: Option<string>, path: string)
    requires (port.Some? ==> '/' !in port.value) && (path == "" || path[0] == '/')
    ensures "://" <= PortText(port) + path ==> port == Some("") && "//" <= path
  {
    var rest := PortText(port) + path;
    if port.None? {
      assert rest == path;
    } else if port.value != "" {
      assert rest[1] == port.value[0] && port.value[0] in port.value;
    } else if "://" <= rest {
      assert rest == ":" + path && rest[..3] == "://";
      assert path[..2] == rest[1..3];
    }
  }

  lemma SchemeIsFound(scheme: Scheme, host: string, port: Option<string>, path: string)
    requires Delimited(host, port, path) && !TakenForScheme(scheme, host, port, path)
    ensures var url := JoinUrl(scheme, host, port, path);
            && HttpClient.SchemeLength(url) == |SchemeText(scheme)|
            && HttpClient.DefaultPort(url) == if scheme == Https then "443" else "80"
  {
    hide Delimited, TakenForScheme, PortText;
    var url := JoinUrl(scheme, host, port, path);
    var rest := host + (PortText(port) + path);
    assert url == SchemeText(scheme) + rest;
    hide JoinUrl;
    match scheme
    case NoScheme =>
      assert url == rest;
      NoSchemeIsFound(host, port, path);
    case Http =>
      assert url[..7] == "http://";
    case Https =>
      assert url[..8] == "https://";
      assert url[4] == 's';
  }

  /** What is stored of a host: all of it, or the parser fails. */
  function Parsed(host: string, port: string, path: string): Option<HttpClient.Url> {
    if host == "" || |host| > 255 then None else Some(HttpClient.Url(host, port, HttpClient.PathOrRoot(path)))
  }

  lemma WithPort(url: string, front: string, host: string, port: string, path: string)
    requires url == front + host + (":" + port) + path && HttpClient.SchemeLength(url) == |front|
    requires Delimited(host, Some(port), path)
    ensures HttpClient.ParsedUrl(url) == Parsed(host, HttpClient.PortOr(port, HttpClient.DefaultPort(url)), path)
  {
    hide HttpClient.ParsedUrl, HttpClient.SchemeLength, HttpClient.DefaultPort, HttpClient.PathOrRoot,
      HttpClient.PortOr;
    var start, end, portEnd := |front|, |front| + |host|, |front| + |host| + 1 + |port|;
    assert url[start..end] == host && url[end + 1..portEnd] == port && url[portEnd..] == path;
    assert url[end] == ':' && (portEnd < |url| ==> url[portEnd] == path[0]);
    assert forall i | start <= i < end :: url[i] == host[i - start] && url[i] in host;
    assert forall i | end < i < portEnd :: url[i] == port[i - end - 1] && url[i] in port;
    HttpClient.ParsedWithPort(url, start, end, portEnd);
  }

  lemma WithoutPort(url: string, front: string, host: string, path: string)
    requires url == front + host + path && HttpClient.SchemeLength(url) == |front|
    requires Delimited(host, None, path)
    ensures HttpClient.ParsedUrl(url) == Parsed(host, HttpClient.DefaultPort(url), path)
  {
    hide HttpClient.ParsedUrl, HttpClient.SchemeLength, HttpClient.DefaultPort, HttpClient.PathOrRoot;
    var start, end := |front|, |front| + |host|;
    assert url[start..end] == host && url[end..] == path;
    assert end < |url| ==> url[end] == path[0];
    assert forall i | start <= i < end :: url[i] == host[i - start] && url[i] in host;
    HttpClient.ParsedWithoutPort(url, start, end);
  }

  /** parse_url takes every URL apart into the parts it was put together from. It fails exactly when the
      host is empty or longer than 255; a port text that is empty or longer than 15 gives way to the
      default of the scheme; of a path it keeps 511 characters, and an empty one becomes the root. */
  lemma UrlRoundTrip(scheme: Scheme, host: string, port: Option<string>, path: string)
    requires Delimited(host, port, path) && !TakenForScheme(scheme, host, port, path)
    ensures HttpClient.ParsedUrl(JoinUrl(scheme, host, port, path))
            == if host == "" || |host| > 255 then None
               else Some(HttpClient.Url(host,
                                        if port.Some? && 0 < |port.value| < 16 then port.value
                                        else if scheme == Https then "443" else "80",
                                        if path == "" then "/" else if |path| > 511 then path[..511] else path))
  {
    hide HttpClient.ParsedUrl, HttpClient.SchemeLength, HttpClient.DefaultPort;
    SchemeIsFound(scheme, host, port, path);
    var url := JoinUrl(scheme, host, port, path);
    if port.Some? {
      WithPort(url, SchemeText(scheme), host, port.value, path);
    } else {
      assert url == SchemeText(scheme) + host + path;
      WithoutPort(url, SchemeText(scheme), host, path);
    }
  }

  /** The case that was left out is real: "http:" in front of a path of two slashes is a scheme. */
  lemma SchemeTakesOver(rest: string)
    ensures var url := JoinUrl(NoScheme, "http", Some(""), "//" + rest);
            url == "http://" + rest && HttpClient.SchemeLength(url) == 7
  {
    var url := JoinUrl(NoScheme, "http", Some(""), "//" + rest);
    assert url == "http" + ":" + "//" + rest == "http://" + rest;
  }

  // ---------- From the URL to the response ----------

  /** The handler of the weather server, for one outcome of the weather lookup. */
  function HandlerFor(meteo: WeatherServer.Meteo): HttpServer.Handler {
    (verb, path, buffer) => WeatherServer.Assemble(WeatherServer.Route(verb, path, buffer, meteo))
  }

  /** The echo route sends back the whole request: for GET that is what the homepage says, but for
      a request with a body it is never the body alone, which the homepage promises for POST. */
  lemma EchoIsTheWholeRequest(buffer: string, meteo: WeatherServer.Meteo)
    requires HttpServer.Complete(buffer) && WeatherServer.PathOf(HttpServer.RequestIn(buffer).path) == "/echo"
    ensures var q := HttpServer.RequestIn(buffer);
            var r := WeatherServer.Route(q.verb, q.path, buffer, meteo);
            && r == WeatherServer.Response(200, "OK", WeatherServer.PLAIN, buffer)
            && HttpServer.BodyIn(buffer) != Some(r.body)
  {
    hide ParseRequest, WeatherServer.NotFoundBody, WeatherServer.PathOf;
    assert HeaderEnd(buffer) >= 4;
  }

  /** Nothing of the client's request but the whole of it holds a complete header. */
  lemma OnlyTheWholeHasAHeader(part: string, path: string, host: string)
    requires GoodPath(path) && GoodHost(host)
    requires part <= HttpClient.FormatRequest(path, host) && part != HttpClient.FormatRequest(path, host)
    ensures HeaderEnd(part) == 0
  {
    hide HeaderEnd, HttpClient.FormatRequest, GoodPath, GoodHost;
    RequestIsCompleteIff(path, host);
    if HeaderEnd(part) > 0 {
      HeaderEndStable(part, HttpClient.FormatRequest(path, host));
    }
  }

  /** One tick for each chunk, with nothing to write. */
  function Ticks(chunks: seq<string>): seq<HttpServer.Tick> {
    seq(|chunks|, i requires 0 <= i < |chunks| => HttpServer.Tick(Chunk(chunks[i]), WouldBlock))
  }

  lemma TicksSnoc(chunks: seq<string>)
    requires chunks != []
    ensures |Ticks(chunks)| == |chunks| && Ticks(chunks)[..|chunks| - 1] == Ticks(chunks[..|chunks| - 1])
    ensures Ticks(chunks)[|chunks| - 1] == HttpServer.Tick(Chunk(chunks[|chunks| - 1]), WouldBlock)
  {
  }

  /** Every way of cutting the client's request into chunks that the server can read is a legal run
      that takes in every byte of it. */
  lemma {:induction false} EveryCuttingArrives(h: HttpServer.Handler, chunks: seq<string>, path: string, host: string)
    requires GoodPath(path) && GoodHost(host)
    requires Flatten(chunks) <= HttpClient.FormatRequest(path, host)
    requires forall k | 0 <= k < |chunks| :: 0 < |chunks[k]| <= HttpServer.CHUNK_SIZE
    ensures HttpServer.LegalRun(h, Ticks(chunks))
    ensures HttpServer.Run(h, Ticks(chunks)).stream == Flatten(chunks)
    decreases |chunks|
  {
    hide HeaderEnd, ParseRequest, HttpClient.FormatRequest, GoodPath, GoodHost, HttpServer.AfterReceive, Ticks;
    if chunks == [] {
      assert Ticks(chunks) == [] by { TicksEmpty(); }
    } else {
      var before := chunks[..|chunks| - 1];
      EveryCuttingArrives(h, before, path, host);
      OnlyTheWholeHasAHeader(Flatten(before), path, host);
      HttpServer.LeavesReceiveWhenComplete(h, Ticks(before));
      TicksSnoc(chunks);
    }
  }

  lemma TicksEmpty()
    ensures Ticks([]) == []
  {
  }

  /** Whatever part of a response arrives, in any chunks, the client is done exactly when it is all. */
  lemma {:induction false} ResponseIsRead(r: WeatherServer.Response, part: string, chunks: seq<string>)
    requires WeatherServer.FromHandler(r) && part <= WeatherServer.Assemble(r) && Flatten(chunks) == part
    ensures var reader := HttpClient.ReadAll(chunks);
            && (reader.done <==> part == WeatherServer.Assemble(r))
            && (reader.done ==> reader.code == r.code && reader.body == if r.body == "" then None else Some(r.body))
  {
    hide HeaderEnd, ParseStatus, WeatherServer.Assemble, WeatherServer.FromHandler;
    HttpClient.ChunksDoNotMatter(chunks);
    ResponseReadsBack(r, part);
  }

  /** What a run of server and client comes to: the server t has seen GET, the path and the host. The
      client is done exactly when the whole response was accepted, which it was if the server gave the
      connection up without a failure, and then has the status code and the body of that response. */
  ghost predicate Delivered(t: HttpServer.Trace, path: string, host: string, r: WeatherServer.Response,
                            reader: HttpClient.Reader)
  {
    && t.calls == 1 && t.conn.verb == Some("GET") && t.conn.path == Some(path) && t.conn.host == Some(host)
    && (reader.done <==> t.accepted == WeatherServer.Assemble(r))
    && (t.conn.state == HttpServer.Dispose && !t.failed ==> reader.done)
    && (reader.done ==> reader.code == r.code && reader.body == if r.body == "" then None else Some(r.body))
  }

  lemma {:induction false} RequestIsDelivered(path: string, host: string, meteo: WeatherServer.Meteo,
                                              ticks: seq<HttpServer.Tick>, chunks: seq<string>)
    requires GoodHost(host) && GoodPath(path) && Arrives(path, host)
    requires meteo.code <= 0x7fff_ffff
    requires |WeatherServer.Route("GET", path, HttpClient.FormatRequest(path, host), meteo).body|
             <= WeatherServer.MAX_BODY
    requires HttpServer.LegalRun(HandlerFor(meteo), ticks)
    requires HttpServer.Run(HandlerFor(meteo), ticks).stream == HttpClient.FormatRequest(path, host)
    requires Flatten(chunks) == HttpServer.Run(HandlerFor(meteo), ticks).accepted
    ensures Delivered(HttpServer.Run(HandlerFor(meteo), ticks), path, host,
                      WeatherServer.Route("GET", path, HttpClient.FormatRequest(path, host), meteo),
                      HttpClient.ReadAll(chunks))
  {
    hide HeaderEnd, ParseRequest, WeatherServer.Assemble, WeatherServer.Route, HttpClient.FormatRequest,
      HostSeen, LengthSeen, HttpServer.Complete, GoodHost, GoodPath, HttpServer.Run, HttpServer.LegalRun;
    var s := HttpClient.FormatRequest(path, host);
    var h := HandlerFor(meteo);
    RequestIsCompleteIff(path, host);
    HttpServer.RunInv(h, ticks);
    WeatherServer.RouteIsFromHandler("GET", path, s, meteo);
    ResponseIsRead(WeatherServer.Route("GET", path, s, meteo), HttpServer.Run(h, ticks).accepted, chunks);
  }

  lemma HostAndPathFit(path: string, host: string)
    requires GoodHost(host) && GoodPath(path) && Arrives(path, host)
    ensures 0 < |host| <= 255 && 0 < |path| <= 255
  {
  }

  /** From end to end: a client is given a URL with a host, a port and a path that arrives; its request
      reaches the server in any chunks; what the socket has accepted of the server's response reaches
      the client in any chunks. */
  lemma {:induction false} EndToEnd(scheme: Scheme, host: string, port: Option<string>, path: string,
                                    meteo: WeatherServer.Meteo, ticks: seq<HttpServer.Tick>, chunks: seq<string>)
    requires GoodHost(host) && GoodPort(port) && GoodPath(path) && Arrives(path, host)
    requires meteo.code <= 0x7fff_ffff
    requires |WeatherServer.Route("GET", path, HttpClient.FormatRequest(path, host), meteo).body|
             <= WeatherServer.MAX_BODY
    requires HttpServer.LegalRun(HandlerFor(meteo), ticks)
    requires var url := HttpClient.ParsedUrl(JoinUrl(scheme, host, port, path));
             && url.Some?
             && HttpServer.Run(HandlerFor(meteo), ticks).stream
                == HttpClient.FormatRequest(url.value.path, url.value.host)
    requires Flatten(chunks) == HttpServer.Run(HandlerFor(meteo), ticks).accepted
    ensures Delivered(HttpServer.Run(HandlerFor(meteo), ticks), path, host,
                      WeatherServer.Route("GET", path, HttpClient.FormatRequest(path, host), meteo),
                      HttpClient.ReadAll(chunks))
  {
    hide HttpClient.ParsedUrl, WeatherServer.Route, HttpClient.FormatRequest, HostSeen, LengthSeen,
      GoodHost, GoodPort, HttpServer.Run, HttpServer.LegalRun, Delivered, JoinUrl;
    GoodUrl(scheme, host, port, path);
    HostAndPathFit(path, host);
    hide Delimited, TakenForScheme, GoodPath, Arrives;
    UrlRoundTrip(scheme, host, port, path);
    RequestIsDelivered(path, host, meteo, ticks, chunks);
  }

  /** What the client has in the end, in so many words: part is the path without its query. */
  lemma {:induction false} EndToEndAnswers(
    scheme: Scheme, host: string, port: Option<string>, path: string, part: string,
    meteo: WeatherServer.Meteo, ticks: seq<HttpServer.Tick>, chunks: seq<string>)
    requires GoodHost(host) && GoodPort(port) && GoodPath(path) && Arrives(path, host)
    requires meteo.code <= 0x7fff_ffff
    requires |WeatherServer.Route("GET", path, HttpClient.FormatRequest(path, host), meteo).body|
             <= WeatherServer.MAX_BODY
    requires HttpServer.LegalRun(HandlerFor(meteo), ticks)
    requires var url := HttpClient.ParsedUrl(JoinUrl(scheme, host, port, path));
             && url.Some?
             && HttpServer.Run(HandlerFor(meteo), ticks).stream
                == HttpClient.FormatRequest(url.value.path, url.value.host)
    requires Flatten(chunks) == HttpServer.Run(HandlerFor(meteo), ticks).accepted
    requires HttpClient.ReadAll(chunks).done && WeatherServer.IsPathPart(part, path)
    ensures var reader := HttpClient.ReadAll(chunks);
            && (part == "/" ==> reader.code == 200 && reader.body == Some(WeatherServer.HOMEPAGE))
            && (part == "/echo" ==> reader.code == 200 && reader.body == Some(HttpClient.FormatRequest(path, host)))
            && (part == "/v1/current" && meteo.json.Some? ==>
                  reader.code == meteo.code && reader.body == if meteo.json.value == "" then None else meteo.json)
            && (part == "/v1/current" && meteo.json.None? ==>
                  reader.code == 500 && reader.body == Some(WeatherServer.FETCH_FAILED))
            && (part != "/" && part != "/echo" && part != "/v1/current" ==>
                  reader.code == 404 && reader.body.Some? && WeatherServer.Mentions(reader.body.value, part))
  {
    hide HttpClient.ParsedUrl, WeatherServer.Route, WeatherServer.Assemble, HttpClient.FormatRequest,
      HostSeen, LengthSeen, GoodHost, GoodPort, GoodPath, Arrives, HttpServer.Run, HttpServer.LegalRun,
      JoinUrl, WeatherServer.IsPathPart;
    EndToEnd(scheme, host, port, path, meteo, ticks, chunks);
    WeatherServer.RouteAnswers("GET", path, part, HttpClient.FormatRequest(path, host), meteo);
    HttpClient.FormatNotEmpty(path, host);
    BodiesNotEmpty(part);
    hide WeatherServer.Mentions;
  }

  lemma BodiesNotEmpty(part: string)
    ensures WeatherServer.HOMEPAGE != "" && WeatherServer.FETCH_FAILED != ""
    ensures part != "" ==> !WeatherServer.Mentions("", part)
  {
  }
}
