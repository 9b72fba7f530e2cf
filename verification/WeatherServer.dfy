/** The request handler of src/server/weather_server_instance.c: split the path from the query,
    choose the route, and put header and body of the response together. */
module WeatherServer {
  import opened Collections
  import opened Text

  // ---------- Path and query ----------

  /** strchr(path, '?'), as an index: |s| when there is none. */
  function QuestionMark(s: string): (i: nat)
    ensures i <= |s|
    ensures i < |s| ==> s[i] == '?'
    ensures '?' !in s[..i]
  {
    if s == "" || s[0] == '?' then 0 else 1 + QuestionMark(s[1..])
  }

  function PathOf(requestPath: string): string {
    requestPath[..QuestionMark(requestPath)]
  }

  function QueryOf(requestPath: string): string {
    var i := QuestionMark(requestPath);
    if i < |requestPath| then requestPath[i + 1..] else ""
  }

  /** The split loses nothing: path and query, joined by the question mark, are the request path. */
  lemma SplitRejoins(requestPath: string)
    ensures '?' !in PathOf(requestPath)
    ensures '?' in requestPath ==> PathOf(requestPath) + "?" + QueryOf(requestPath) == requestPath
    ensures '?' !in requestPath ==> PathOf(requestPath) == requestPath && QueryOf(requestPath) == ""
    ensures |requestPath| <= 255 ==> |PathOf(requestPath)| < 256 && |QueryOf(requestPath)| < 512
  {
    var i := QuestionMark(requestPath);
    if i == |requestPath| {
      assert requestPath[..i] == requestPath;
    }
  }

  // ---------- Responses ----------

  datatype Response = Response(code: nat, reason: string, contentType: string, body: string)

  const HTML := "text/html; charset=utf-8"
  const PLAIN := "text/plain"
  const JSON := "application/json"

  function StatusLine(code: nat, reason: string): string {
    "HTTP/1.1 " + Dec(code) + " " + reason
  }

  const ORIGIN_LINE := "Access-Control-Allow-Origin: *"

  /** Everything up to the last header field. */
  function FieldsBefore(code: nat, reason: string, contentType: string): string {
    StatusLine(code, reason) + "\r\n" + "Content-Type: " + contentType + "\r\n" + ORIGIN_LINE + "\r\n"
  }

  function Header(code: nat, reason: string, contentType: string, length: nat): string {
    FieldsBefore(code, reason, contentType) + "Content-Length: " + Dec(length) + "\r\n\r\n"
  }

  /** The bytes of a response. */
  function Assemble(r: Response): string {
    Header(r.code, r.reason, r.contentType, |r.body|) + r.body
  }

  /** What open_meteo_handler_current returns: a status code and, unless it failed, a JSON text. */
  datatype Meteo = Meteo(json: Option<string>, code: nat)

  const HOMEPAGE := "<!DOCTYPE html><html><head><title>Just Weather</title></head><body><h1>Just Weather API</h1>"
    + "<p>Available endpoints:</p><ul>"
    + "  <li><b>GET /echo</b> \U{e2}\U{80}\U{94} echo raw request</li>"
    + "  <li><b>POST /echo</b> \U{e2}\U{80}\U{94} echo raw body</li>"
    + "  <li><b>GET /v1/current?lat=XX&lon=YY</b> \U{e2}\U{80}\U{94} current weather</li></ul>"
    + "<p>Source code available on <a href=\"https://github.com/Stockholm-3/just-weather\""
    + " target=\"_blank\">GitHub</a>.</p>"
    + "</body></html>"

  const FETCH_FAILED := "{\n  \"error\": \"Internal Server Error\",\n"
    + "  \"message\": \"Failed to fetch weather data from Open-Meteo API\"\n}\n"

  const NOT_FOUND := "{\n  \"error\": \"Not Found\",\n  \"message\": \"The requested endpoint was not found\",\n"
    + "  \"method\": \""
  const NOT_FOUND_PATH := "\",\n  \"path\": \""
  const ENDPOINTS := "\",\n  \"available_endpoints\": [\n    \"GET /\",\n    \"POST /echo\",\n"
    + "    \"GET /v1/current?lat=XX&lon=YY\"\n  ]\n}\n"

  function NotFoundBody(verb: string, path: string): string {
    NOT_FOUND + verb + NOT_FOUND_PATH + path + ENDPOINTS
  }

  /** The response that each route stands for. The echo route returns the whole read buffer. */
  function Route(verb: string, requestPath: string, readBuffer: string, meteo: Meteo): Response {
    var path := PathOf(requestPath);
    if verb == "GET" && path == "/" then Response(200, "OK", HTML, HOMEPAGE)
    else if path == "/echo" then Response(200, "OK", PLAIN, readBuffer)
    else if verb == "GET" && path == "/v1/current" then
      match meteo.json
      case None => Response(500, "Internal Server Error", JSON, FETCH_FAILED)
      case Some(json) => Response(meteo.code, if meteo.code == 200 then "OK" else "Error", JSON, json)
    else Response(404, "Not Found", JSON, NotFoundBody(verb, path))
  }

  /** part is what stands in front of the first question mark. */
  predicate IsPathPart(part: string, requestPath: string) {
    '?' !in part && (requestPath == part || part + "?" <= requestPath)
  }

  lemma {:induction false} QuestionMarkAt(part: string, rest: string)
    requires '?' !in part && (rest == "" || rest[0] == '?')
    ensures QuestionMark(part + rest) == |part|
  {
    if part == "" {
      assert part + rest == rest;
    } else {
      assert part[0] in part;
      assert (part + rest)[1..] == part[1..] + rest;
      QuestionMarkAt(part[1..], rest);
    }
  }

  lemma PathPartIs(part: string, requestPath: string)
    requires IsPathPart(part, requestPath)
    ensures PathOf(requestPath) == part
  {
    var rest := if requestPath == part then "" else requestPath[|part|..];
    assert requestPath == part + rest;
    QuestionMarkAt(part, rest);
  }

  ghost predicate Mentions(body: string, text: string) {
    exists i: nat :: Occurs(body, text, i)
  }

  lemma MentionsAt(front: string, text: string, back: string)
    ensures Mentions(front + text + back, text)
  {
    var body := front + text + back;
    assert body[|front|..|front| + |text|] == text;
    assert Occurs(body, text, |front|);
  }

  /** The 404 body names the method and the path. */
  lemma NotFoundMentions(verb: string, path: string)
    ensures Mentions(NotFoundBody(verb, path), verb) && Mentions(NotFoundBody(verb, path), path)
  {
    hide Mentions, NOT_FOUND, NOT_FOUND_PATH, ENDPOINTS;
    MentionsAt(NOT_FOUND, verb, NOT_FOUND_PATH + path + ENDPOINTS);
    MentionsAt(NOT_FOUND + verb + NOT_FOUND_PATH, path, ENDPOINTS);
    assert NotFoundBody(verb, path) == NOT_FOUND + verb + (NOT_FOUND_PATH + path + ENDPOINTS);
  }

  /** What each request is answered with: the homepage, an echo or the weather, and for every other
      method or path an error that names both. */
  ghost predicate Answers(verb: string, part: string, readBuffer: string, meteo: Meteo, r: Response) {
    && (verb == "GET" && part == "/" ==> r == Response(200, "OK", "text/html; charset=utf-8", HOMEPAGE))
    && (part == "/echo" ==> r == Response(200, "OK", "text/plain", readBuffer))
    && (verb == "GET" && part == "/v1/current" && meteo.json.None? ==>
          r == Response(500, "Internal Server Error", "application/json", FETCH_FAILED))
    && (verb == "GET" && part == "/v1/current" && meteo.json.Some? ==>
          && r.code == meteo.code && r.contentType == "application/json" && r.body == meteo.json.value
          && r.reason == if meteo.code == 200 then "OK" else "Error")
    && (part != "/echo" && (verb != "GET" || (part != "/" && part != "/v1/current")) ==>
          && r.code == 404 && r.reason == "Not Found" && r.contentType == "application/json"
          && Mentions(r.body, verb) && Mentions(r.body, part))
  }

  lemma RouteAnswers(verb: string, requestPath: string, part: string, readBuffer: string, meteo: Meteo)
    requires IsPathPart(part, requestPath)
    ensures Answers(verb, part, readBuffer, meteo, Route(verb, requestPath, readBuffer, meteo))
  {
    PathPartIs(part, requestPath);
    NotFoundMentions(verb, part);
    hide PathOf, NotFoundBody, Mentions, IsPathPart;
  }

  lemma RouteAnswersAlways(verb: string, requestPath: string, readBuffer: string, meteo: Meteo)
    ensures forall part | IsPathPart(part, requestPath) ::
              Answers(verb, part, readBuffer, meteo, Route(verb, requestPath, readBuffer, meteo))
  {
    hide *;
    forall part | IsPathPart(part, requestPath)
      ensures Answers(verb, part, readBuffer, meteo, Route(verb, requestPath, readBuffer, meteo))
    {
      RouteAnswers(verb, requestPath, part, readBuffer, meteo);
    }
  }

  /** A response as it goes over the wire. */
  lemma AssembledText(r: Response)
    ensures Assemble(r)
            == "HTTP/1.1 " + Dec(r.code) + " " + r.reason
               + "\r\nContent-Type: " + r.contentType
               + "\r\nAccess-Control-Allow-Origin: *"
               + "\r\nContent-Length: " + Dec(|r.body|) + "\r\n\r\n" + r.body
  {
    hide Dec;
    var f := StatusLine(r.code, r.reason);
    assert f == "HTTP/1.1 " + Dec(r.code) + " " + r.reason;
    hide StatusLine, ORIGIN_LINE;
    LineLiterals();
    OriginLiteral();
    Glue(f, "Content-Type: ", "\r\nContent-Type: ");
    var g := f + "\r\nContent-Type: " + r.contentType;
    Glue(g, ORIGIN_LINE, "\r\nAccess-Control-Allow-Origin: *");
    var h := g + "\r\nAccess-Control-Allow-Origin: *";
    Glue(h, "Content-Length: ", "\r\nContent-Length: ");
    assert FieldsBefore(r.code, r.reason, r.contentType) == h + "\r\n";
  }

  lemma LineLiterals()
    ensures "\r\n" + "Content-Type: " == "\r\nContent-Type: "
    ensures "\r\n" + "Content-Length: " == "\r\nContent-Length: "
  {
  }

  lemma OriginLiteral()
    ensures "\r\n" + ORIGIN_LINE == "\r\nAccess-Control-Allow-Origin: *"
  {
  }

  lemma Glue(f: string, line: string, text: string)
    requires "\r\n" + line == text
    ensures f + "\r\n" + line == f + text
  {
  }

  /** The longest body that a 64-bit size can still count together with its header. */
  const MAX_BODY := SIZE_MAX - 256

  /** The responses that the handler can assemble, with such a body and a status code that an int can
      hold. */
  predicate FromHandler(r: Response) {
    && (r.reason == "OK" || r.reason == "Error" || r.reason == "Not Found" || r.reason == "Internal Server Error")
    && (r.contentType == HTML || r.contentType == PLAIN || r.contentType == JSON)
    && |r.body| <= MAX_BODY && r.code <= 0x7fff_ffff
  }

  lemma RouteIsFromHandler(verb: string, requestPath: string, readBuffer: string, meteo: Meteo)
    requires |Route(verb, requestPath, readBuffer, meteo).body| <= MAX_BODY && meteo.code <= 0x7fff_ffff
    ensures FromHandler(Route(verb, requestPath, readBuffer, meteo))
  {
    hide QuestionMark, NotFoundBody;
  }

  lemma {:induction false} DecFits(n: nat)
    requires n <= SIZE_MAX
    ensures |Dec(n)| <= 20
  {
    assert Pow10(7) == 10_000_000;
    assert Pow10(14) == 10_000_000 * 10_000_000;
    assert Pow10(20) == 10_000_000 * 10_000_000 * 1_000_000;
    DecLength(n, 20);
  }

  /** The header of every response fits the 256 bytes of its buffer, so nothing is cut off. */
  lemma HeaderFits(r: Response)
    requires FromHandler(r)
    ensures |Header(r.code, r.reason, r.contentType, |r.body|)| < 256
  {
    DecFits(r.code);
    DecFits(|r.body|);
    hide Dec;
    assert |HTML| == 24 && |PLAIN| == 10 && |JSON| == 16 && |ORIGIN_LINE| == 30;
  }

  /** The 404 body fits the 512 bytes of its buffer, for every method and path the parser gives. */
  lemma NotFoundBodyFits(verb: string, path: string)
    requires |verb| <= 7 && |path| <= 255
    ensures |NotFoundBody(verb, path)| < 512
  {
  }

  // ---------- The handler as the code runs it ----------

  /** header and header_len of one route, then the copies into a buffer of total bytes. */
  method WriteResponse(r: Response) returns (writeBuffer: string, writeSize: nat)
    requires FromHandler(r)
    ensures writeBuffer == Assemble(r) && writeSize == |writeBuffer|
  {
    var text := Header(r.code, r.reason, r.contentType, |r.body|);
    HeaderFits(r);
    var header := Snprintf(256, text);
    var headerLen := |text|;
    writeSize := headerLen + |r.body|;
    writeBuffer := header[..headerLen] + r.body;
  }

  /** weather_server_instance_on_request. */
  method OnRequest(verb: string, requestPath: string, readBuffer: string, meteo: Meteo)
    returns (writeBuffer: string, writeSize: nat)
    requires |verb| <= 7 && |requestPath| <= 255
    requires |Route(verb, requestPath, readBuffer, meteo).body| <= MAX_BODY && meteo.code <= 0x7fff_ffff
    ensures writeBuffer == Assemble(Route(verb, requestPath, readBuffer, meteo)) && writeSize == |writeBuffer|
    ensures forall part | IsPathPart(part, requestPath) ::
              Answers(verb, part, readBuffer, meteo, Route(verb, requestPath, readBuffer, meteo))
  {
    hide QuestionMark, NotFoundBody, Assemble, IsPathPart, Answers;
    RouteAnswersAlways(verb, requestPath, readBuffer, meteo);
    RouteIsFromHandler(verb, requestPath, readBuffer, meteo);
    var questionMark := QuestionMark(requestPath);
    var path := requestPath[..questionMark];
    if verb == "GET" && path == "/" {
      writeBuffer, writeSize := WriteResponse(Response(200, "OK", HTML, HOMEPAGE));
      return;
    }
    if path == "/echo" {
      writeBuffer, writeSize := WriteResponse(Response(200, "OK", PLAIN, readBuffer));
      return;
    }
    if verb == "GET" && path == "/v1/current" {
      match meteo.json {
        case None =>
          writeBuffer, writeSize := WriteResponse(Response(500, "Internal Server Error", JSON, FETCH_FAILED));
        case Some(json) =>
          writeBuffer, writeSize := WriteResponse(Response(meteo.code,
            if meteo.code == 200 then "OK" else "Error", JSON, json));
      }
      return;
    }
    NotFoundBodyFits(verb, path);
    var body := Snprintf(512, NotFoundBody(verb, path));
    writeBuffer, writeSize := WriteResponse(Response(404, "Not Found", JSON, body));
  }
}
