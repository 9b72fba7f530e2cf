/** The client of src/lib/http_client.c: take a URL apart, send the request through partial writes,
    and read the response from chunks. */
module HttpClient {
  import opened Collections
  import opened Text
  import opened HttpMessages

  // ---------- URLs ----------

  datatype Url = Url(host: string, port: string, path: string)

  /** The length of the longest prefix without any of the stop characters. */
  function Span(s: string, stops: set<char>): (n: nat)
    ensures n <= |s|
    ensures n < |s| ==> s[n] in stops
    ensures forall i | 0 <= i < n :: s[i] !in stops
  {
    if s == "" || s[0] in stops then 0 else 1 + Span(s[1..], stops)
  }

  function SchemeLength(url: string): (n: nat)
    ensures n <= |url|
  {
    if "http://" <= url then 7 else if "https://" <= url then 8 else 0
  }

  function DefaultPort(url: string): string {
    if !("http://" <= url) && "https://" <= url then "443" else "80"
  }

  /** A port text of 1 to 15 characters replaces the default; any other is ignored. */
  function PortOr(text: string, default: string): string {
    if 0 < |text| < 16 then text else default
  }

  function PathOrRoot(rest: string): string {
    if rest != "" && rest[0] == '/' then (if |rest| > 511 then rest[..511] else rest) else "/"
  }

  /** What parse_url stores, None when it fails. */
  function ParsedUrl(url: string): Option<Url> {
    var s := url[SchemeLength(url)..];
    var n := Span(s, {':', '/'});
    if n == 0 || n > 255 then None
    else if n < |s| && s[n] == ':' then
      var t := s[n + 1..];
      var m := Span(t, {'/'});
      Some(Url(s[..n], PortOr(t[..m], DefaultPort(url)), PathOrRoot(t[m..])))
    else Some(Url(s[..n], DefaultPort(url), PathOrRoot(s[n..])))
  }

  lemma {:induction false} SpanIs(s: string, stops: set<char>, n: nat)
    requires n <= |s| && (n < |s| ==> s[n] in stops)
    requires forall i | 0 <= i < n :: s[i] !in stops
    ensures Span(s, stops) == n
  {
  }

  /** The end of the host name: the first stop character behind the scheme. */
  ghost predicate HostEnds(url: string, start: nat, end: nat) {
    && start == SchemeLength(url) && start <= end <= |url|
    && (end < |url| ==> url[end] == ':' || url[end] == '/')
    && forall i | start <= i < end :: url[i] != ':' && url[i] != '/'
  }

  lemma HostSpan(url: string, start: nat, end: nat)
    requires HostEnds(url, start, end)
    ensures Span(url[start..], {':', '/'}) == end - start && url[start..][..end - start] == url[start..end]
    ensures url[start..][end - start..] == url[end..]
  {
    var t := url[start..];
    assert forall i | 0 <= i < end - start :: t[i] == url[start + i];
    SpanIs(t, {':', '/'}, end - start);
    assert t[..end - start] == url[start..end] && t[end - start..] == url[end..];
  }

  lemma ParsedWithoutPort(url: string, start: nat, end: nat)
    requires HostEnds(url, start, end) && (end < |url| ==> url[end] == '/')
    ensures ParsedUrl(url) == if end == start || end - start > 255 then None
                              else Some(Url(url[start..end], DefaultPort(url), PathOrRoot(url[end..])))
  {
    HostSpan(url, start, end);
    hide Span, PathOrRoot, DefaultPort, SchemeLength;
  }

  lemma PortSpan(url: string, start: nat, end: nat, portEnd: nat)
    requires start <= end < portEnd <= |url| && (portEnd < |url| ==> url[portEnd] == '/')
    requires forall i | end < i < portEnd :: url[i] != '/'
    ensures url[start..][end - start + 1..] == url[end + 1..]
    ensures Span(url[end + 1..], {'/'}) == portEnd - (end + 1)
    ensures url[end + 1..][..portEnd - (end + 1)] == url[end + 1..portEnd]
            && url[end + 1..][portEnd - (end + 1)..] == url[portEnd..]
  {
    SpanIs(url[end + 1..], {'/'}, portEnd - (end + 1));
  }

  lemma ParsedWithPort(url: string, start: nat, end: nat, portEnd: nat)
    requires HostEnds(url, start, end) && end < |url| && url[end] == ':'
    requires end < portEnd <= |url| && (portEnd < |url| ==> url[portEnd] == '/')
    requires forall i | end < i < portEnd :: url[i] != '/'
    ensures ParsedUrl(url) == if end == start || end - start > 255 then None
                              else Some(Url(url[start..end], PortOr(url[end + 1..portEnd], DefaultPort(url)),
                                            PathOrRoot(url[portEnd..])))
  {
    hide Span, PathOrRoot, DefaultPort, SchemeLength, PortOr;
    HostSpan(url, start, end);
    PortSpan(url, start, end, portEnd);
  }

  /** The first loop of parse_url. */
  method FindHostEnd(url: string, start: nat) returns (end: nat)
    requires start == SchemeLength(url)
    ensures HostEnds(url, start, end)
  {
    end := start;
    while end < |url| && url[end] != ':' && url[end] != '/'
      invariant start <= end <= |url|
      invariant forall i | start <= i < end :: url[i] != ':' && url[i] != '/'
    {
      end := end + 1;
    }
  }

  /** The second loop of parse_url. */
  method FindPortEnd(url: string, portStart: nat) returns (end: nat)
    requires portStart <= |url|
    ensures portStart <= end <= |url| && (end < |url| ==> url[end] == '/')
    ensures forall i | portStart <= i < end :: url[i] != '/'
  {
    end := portStart;
    while end < |url| && url[end] != '/'
      invariant portStart <= end <= |url|
      invariant forall i | portStart <= i < end :: url[i] != '/'
    {
      end := end + 1;
    }
  }

  /** parse_url, with its pointers as indices. */
  method ParseUrl(url: string) returns (code: int, hostname: string, port: string, path: string)
    ensures code == if ParsedUrl(url).Some? then 0 else -1
    ensures code == 0 ==> Url(hostname, port, path) == ParsedUrl(url).value
  {
    hide ParsedUrl, Span;
    hostname, port, path := "", "80", "/";
    var start := 0;
    if "http://" <= url {
      start := 7;
      port := "80";
    } else if "https://" <= url {
      start := 8;
      port := "443";
    }
    var end := FindHostEnd(url, start);
    ghost var hostEnd := end;
    var hostnameLen := end - start;
    if hostnameLen == 0 || hostnameLen > 255 {
      HostMissing(url, start, end);
      return -1, hostname, port, path;
    }
    hostname := url[start..end];
    if end < |url| && url[end] == ':' {
      end := end + 1;
      var portStart := end;
      end := FindPortEnd(url, portStart);
      var portLen := end - portStart;
      if portLen > 0 && portLen < 16 {
        port := url[portStart..end];
      }
      ParsedWithPort(url, start, hostEnd, end);
    } else {
      ParsedWithoutPort(url, start, end);
    }
    if end < |url| && url[end] == '/' {
      path := if |url| - end > 511 then url[end..end + 511] else url[end..];
    }
    PathAt(url, end);
    return 0, hostname, port, path;
  }

  lemma HostMissing(url: string, start: nat, end: nat)
    requires HostEnds(url, start, end) && (end == start || end - start > 255)
    ensures ParsedUrl(url).None?
  {
    hide Span, SchemeLength;
    HostSpan(url, start, end);
  }

  lemma PathAt(url: string, end: nat)
    requires end <= |url|
    ensures PathOrRoot(url[end..]) ==
            if end < |url| && url[end] == '/' then (if |url| - end > 511 then url[end..end + 511] else url[end..])
            else "/"
  {
    if |url| - end > 511 {
      assert url[end..][..511] == url[end..end + 511];
    }
  }

  // ---------- Requests ----------

  function FormatRequest(path: string, host: string): string {
    "GET " + path + " HTTP/1.1\r\nHost: " + host + "\r\nConnection: close\r\n\r\n"
  }

  lemma FormatNotEmpty(path: string, host: string)
    ensures FormatRequest(path, host) != ""
  {
  }

  /** What parse_url stores always fits the 1024 bytes of the write buffer. */
  lemma RequestFits(url: string)
    requires ParsedUrl(url).Some?
    ensures |FormatRequest(ParsedUrl(url).value.path, ParsedUrl(url).value.host)| < 1024
  {
  }

  // ---------- Responses ----------

  function StatusOf(buffer: string): Status {
    ParseStatus(buffer[..HeaderEnd(buffer)])
  }

  /** body_start + content_len bytes have arrived. The sum is one of 64-bit sizes and can wrap. */
  predicate Complete(buffer: string) {
    HeaderEnd(buffer) > 0 && |buffer| >= SizeSum(HeaderEnd(buffer), StatusOf(buffer).contentLength)
  }

  /** The extracted body; there is none when the length is 0, nor when no block can hold it. */
  function BodyOf(buffer: string): Option<string>
    requires Complete(buffer)
  {
    var n := StatusOf(buffer).contentLength;
    if n > 0 && HeaderEnd(buffer) + n <= SIZE_MAX then Some(buffer[HeaderEnd(buffer)..HeaderEnd(buffer) + n]) else None
  }

  /** A response being read: complete or not, the bytes so far, and what has been taken from them. */
  datatype Reader = Reader(done: bool, buffer: string, bodyStart: nat,
                           code: int, contentLength: nat, body: Option<string>)

  const NOTHING := Reader(false, "", 0, 0, 0, None)

  function ReaderOf(buffer: string): Reader {
    if HeaderEnd(buffer) == 0 then NOTHING.(buffer := buffer)
    else
      var s := StatusOf(buffer);
      Reader(Complete(buffer), buffer, HeaderEnd(buffer), s.code, s.contentLength,
             if Complete(buffer) then BodyOf(buffer) else None)
  }

  /** Reading stops once the response is complete. */
  function ReadAll(chunks: seq<string>): Reader {
    if chunks == [] then NOTHING
    else
      var r := ReadAll(chunks[..|chunks| - 1]);
      if r.done then r else ReaderOf(r.buffer + chunks[|chunks| - 1])
  }

  lemma ResponseStable(p: string, s: string)
    requires p <= s && Complete(p)
    ensures Complete(s) && HeaderEnd(s) == HeaderEnd(p) && StatusOf(s) == StatusOf(p) && BodyOf(s) == BodyOf(p)
  {
    hide ParseStatus, HeaderEnd;
    HeaderEndStable(p, s);
    var k, n := HeaderEnd(p), StatusOf(p).contentLength;
    if k + n <= SIZE_MAX {
      assert s[k..k + n] == p[k..k + n];
    }
  }

  /** However the bytes are cut, the reader is done exactly when they hold a complete response, and
      then has the status and the body that a one-shot parse of all of them gives. */
  lemma {:induction false} ChunksDoNotMatter(chunks: seq<string>)
    ensures var r := ReadAll(chunks);
            && (r.done <==> Complete(Flatten(chunks)))
            && r.buffer <= Flatten(chunks)
            && r == ReaderOf(r.buffer)
            && (!r.done ==> r.buffer == Flatten(chunks))
            && (r.done ==> r.code == StatusOf(Flatten(chunks)).code && r.body == BodyOf(Flatten(chunks)))
    decreases |chunks|
  {
    hide HeaderEnd, ParseStatus;
    if chunks == [] {
      assert StrStr("", BLANK_LINE).None?;
      EmptyIsIncomplete();
    } else {
      ChunksDoNotMatter(chunks[..|chunks| - 1]);
      var r := ReadAll(chunks);
      if r.done {
        ResponseStable(r.buffer, Flatten(chunks));
      }
    }
  }

  lemma EmptyIsIncomplete()
    ensures HeaderEnd("") == 0
  {
  }

  // ---------- The client as the code updates it ----------

  datatype State = Writing | Reading | Done | Dispose

  class HttpClient {
    const hostname: string
    const path: string
    var state: State
    var writeBuffer: Option<string>
    var writeSize: nat
    var writeOffset: nat
    var readBuffer: string
    var bodyStart: nat
    var contentLength: nat
    var statusCode: int
    var body: Option<string>
    /** The bytes that the socket has accepted. */
    ghost var sent: string

    function View(): Reader
      reads this
    {
      Reader(state == Done, readBuffer, bodyStart, statusCode, contentLength, body)
    }

    /** What is sent is always a prefix of the request, and all of it once the client reads. */
    ghost predicate Valid()
      reads this
    {
      var request := FormatRequest(path, hostname);
      && |request| < 1024
      && (state == Writing ==>
            && View() == NOTHING
            && (writeBuffer.None? ==> sent == "")
            && (writeBuffer.Some? ==>
                  && writeBuffer.value == request && writeSize == |request|
                  && writeOffset < writeSize && sent == request[..writeOffset]))
      && (state == Reading || state == Done ==> sent == request && View() == ReaderOf(readBuffer))
      && (state == Reading ==> !Complete(readBuffer))
    }

    /** The client after http_client_work_init has taken the URL apart and the connection is up; the
        fields that http_client_init leaves unset are taken to be zero. */
    constructor (url: Url)
      requires |FormatRequest(url.path, url.host)| < 1024
      ensures Valid() && state == Writing && hostname == url.host && path == url.path && sent == ""
    {
      hostname, path := url.host, url.path;
      state := Writing;
      writeBuffer, writeSize, writeOffset := None, 0, 0;
      readBuffer, bodyStart, contentLength, statusCode, body := "", 0, 0, 0, None;
      sent := "";
    }

    /** The first call formats the request. */
    method FormatOnce()
      requires Valid() && state == Writing
      modifies `writeBuffer, `writeSize, `writeOffset
      ensures Valid() && writeBuffer.Some? && sent == old(sent)
    {
      hide HeaderEnd, StatusOf, FormatRequest, ReaderOf;
      if writeBuffer.None? {
        var text := FormatRequest(path, hostname);
        FormatNotEmpty(path, hostname);
        writeBuffer := Some(Snprintf(1024, text));
        writeSize := |text|;
        writeOffset := 0;
      }
    }

    /** http_client_work_writing. */
    method WorkWriting(w: Write) returns (next: State)
      requires Valid() && state == Writing
      requires w.Accepted? ==> w.n <= |FormatRequest(path, hostname)| - |sent|
      modifies this
      ensures state == next && Valid()
      ensures match w
              case WriteError => next == Dispose && sent == old(sent)
              case WouldBlock => next == Writing && sent == old(sent)
              case Accepted(n) => |sent| == |old(sent)| + n && old(sent) <= sent <= FormatRequest(path, hostname)
                                  && next == if sent == FormatRequest(path, hostname) then Reading else Writing
    {
      hide HeaderEnd, StatusOf, FormatRequest;
      FormatOnce();
      match w {
        case WouldBlock =>
          return Writing;
        case WriteError =>
          state := Dispose;
          return Dispose;
        case Accepted(n) =>
          ghost var request := writeBuffer.value;
          assert request[..writeOffset] + request[writeOffset..writeOffset + n] == request[..writeOffset + n];
          sent := sent + request[writeOffset..writeOffset + n];
          writeOffset := writeOffset + n;
          if writeOffset >= writeSize {
            writeBuffer := None;
            state := Reading;
            EmptyIsIncomplete();
            return Reading;
          }
          return Writing;
      }
    }

    /** http_client_work_reading. */
    method WorkReading(r: Read) returns (next: State)
      requires Valid() && state == Reading
      requires r.Chunk? ==> 0 < |r.bytes| <= 4096
      modifies this
      ensures state == next && Valid() && sent == old(sent)
      ensures match r
              case ReadError => next == Dispose
              case NoData => next == Reading && View() == old(View())
              case Chunk(bytes) => View() == ReaderOf(old(readBuffer) + bytes)
                                   && next == if Complete(old(readBuffer) + bytes) then Done else Reading
    {
      hide HeaderEnd, ParseStatus;
      if r.ReadError? {
        state := Dispose;
        return Dispose;
      } else if r.NoData? {
        return Reading;
      }
      ghost var before := readBuffer;
      readBuffer := readBuffer + r.bytes;
      if bodyStart == 0 {
        var headerEnd := FindHeaderEnd(readBuffer);
        if headerEnd > 0 {
          var s := ParseStatus(readBuffer[..headerEnd]);
          statusCode := s.code;
          contentLength := s.contentLength;
          bodyStart := headerEnd;
        }
      } else {
        HeaderEndStable(before, readBuffer);
      }
      if bodyStart > 0 {
        if |readBuffer| >= SizeSum(bodyStart, contentLength) {
          if contentLength > 0 && bodyStart + contentLength <= SIZE_MAX {
            body := Some(readBuffer[bodyStart..bodyStart + contentLength]);
          }
          state := Done;
          return Done;
        }
      }
      return Reading;
    }
  }

  lemma {:induction false} DoneStays(chunks: seq<string>, i: nat)
    requires i <= |chunks| && (i < |chunks| ==> ReadAll(chunks[..i]).done)
    ensures ReadAll(chunks) == ReadAll(chunks[..i])
    decreases |chunks|
  {
    if i == |chunks| {
      assert chunks[..i] == chunks;
    } else {
      assert chunks[..|chunks| - 1][..i] == chunks[..i];
      DoneStays(chunks[..|chunks| - 1], i);
    }
  }

  /** The client, called once per chunk until it is done, reads what ReadAll says. */
  method ReadResponse(c: HttpClient, chunks: seq<string>)
    requires c.Valid() && c.state == Reading && c.View() == NOTHING
    requires forall k | 0 <= k < |chunks| :: 0 < |chunks[k]| <= 4096
    modifies c
    ensures c.Valid() && c.View() == ReadAll(chunks)
    ensures c.state == if Complete(Flatten(chunks)) then Done else Reading
  {
    hide ReaderOf, Complete;
    var i := 0;
    while i < |chunks| && c.state == Reading
      invariant i <= |chunks| && c.Valid() && (c.state == Reading || c.state == Done)
      invariant c.View() == ReadAll(chunks[..i])
    {
      assert chunks[..i + 1][..i] == chunks[..i];
      var _ := c.WorkReading(Chunk(chunks[i]));
      i := i + 1;
    }
    DoneStays(chunks, i);
    ChunksDoNotMatter(chunks);
  }
}
