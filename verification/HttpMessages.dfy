/** The message framing that the server and the client share: where the header ends, and what is
    read from it. */
module HttpMessages {
  import opened Collections
  import opened Text

  const BLANK_LINE := "\r\n\r\n"

  /** The index behind the first blank line, 0 if there is none yet. */
  function HeaderEnd(buffer: string): (end: nat)
    ensures end <= |buffer|
    ensures end > 0 ==> end >= 4 && Occurs(buffer, BLANK_LINE, end - 4)
  {
    match StrStr(buffer, BLANK_LINE)
    case None => 0
    case Some(i) => i + 4
  }

  /** Once the header is complete, more bytes do not move its end. */
  lemma HeaderEndStable(p: string, s: string)
    requires p <= s && HeaderEnd(p) > 0
    ensures HeaderEnd(s) == HeaderEnd(p) && s[..HeaderEnd(s)] == p[..HeaderEnd(p)]
  {
    StrStrPrefix(p, s, BLANK_LINE);
  }

  /** The scan loop of both sides: the first index at which the four bytes are there. */
  method FindHeaderEnd(buffer: string) returns (end: nat)
    ensures end == HeaderEnd(buffer)
  {
    var i := 0;
    while i + 4 <= |buffer|
      invariant forall j: nat | j < i :: !Occurs(buffer, BLANK_LINE, j)
    {
      if buffer[i] == '\r' && buffer[i + 1] == '\n' && buffer[i + 2] == '\r' && buffer[i + 3] == '\n' {
        assert buffer[i..i + 4] == BLANK_LINE;
        StrStrIs(buffer, BLANK_LINE, i);
        return i + 4;
      }
      assert buffer[i..i + 4] != BLANK_LINE by {
        assert [buffer[i], buffer[i + 1], buffer[i + 2], buffer[i + 3]] == buffer[i..i + 4];
      }
      i := i + 1;
    }
    return 0;
  }

  /** The loop condition i <= read_buffer_size - 4, with the subtraction of 64-bit sizes. */
  predicate Scanned(i: nat, size: nat) {
    i <= (size + (SIZE_MAX + 1) - 4) % (SIZE_MAX + 1)
  }

  /** That condition keeps the four bytes inside the buffer exactly when there are at least four. */
  lemma ScanStaysInside(size: nat)
    requires size <= SIZE_MAX
    ensures (forall i: nat :: Scanned(i, size) <==> i + 4 <= size) <==> size >= 4
  {
    if size < 4 {
      assert Scanned(0, size);
    }
  }

  /** strstr for the field and "%zu" behind it; 0 when either is missing. */
  function ContentLength(header: string): (n: nat)
    ensures n <= SIZE_MAX
  {
    match StrStr(header, "Content-Length:")
    case None => 0
    case Some(i) =>
      match ScanSize(header[i + 15..])
      case None => 0
      case Some(n) => n
  }

  /** The sum of two 64-bit sizes. */
  function SizeSum(a: nat, b: nat): (r: nat)
    ensures r <= a + b && r <= SIZE_MAX
    ensures a + b <= SIZE_MAX ==> r == a + b
    ensures a + b > SIZE_MAX && b <= SIZE_MAX ==> r < a
  {
    (a + b) % (SIZE_MAX + 1)
  }

  /** verb is the request method, GET or POST for instance. */
  datatype Request = Request(verb: string, path: string, host: string, contentLength: nat)

  /** "%7s %255s" on the whole header, "%255s" behind "Host:". */
  function ParseRequest(header: string): Request {
    var h := CString(header);
    var (verb, rest) := ScanToken(h, 7);
    var path := if verb == "" then "" else ScanToken(rest, 255).0;
    var host := match StrStr(h, "Host:")
                case None => ""
                case Some(i) => ScanToken(h[i + 5..], 255).0;
    Request(verb, path, host, ContentLength(h))
  }

  datatype Status = Status(code: int, contentLength: nat)

  /** "HTTP/1.%*d %d": 0 unless both numbers are there. */
  function StatusCode(h: string): int {
    if |h| < 7 || h[..7] != "HTTP/1." then 0
    else
      match ScanInt(h[7..])
      case None => 0
      case Some((_, rest)) =>
        match ScanInt(rest)
        case None => 0
        case Some((code, _)) => code
  }

  function ParseStatus(header: string): Status {
    var h := CString(header);
    Status(StatusCode(h), ContentLength(h))
  }

  // ---------- Non-blocking sockets ----------

  /** What a read can return: a chunk is never empty. */
  datatype Read = ReadError | NoData | Chunk(bytes: string)

  /** What a write can return: it accepts no more than it is offered. */
  datatype Write = WriteError | WouldBlock | Accepted(n: nat)
}
