/** The server side of src/lib/http_server/http_server_connection.c: receive a request from chunks,
    call the handler once, send its response through partial writes. */
module HttpServer {
  import opened Collections
  import opened Text
  import opened HttpMessages

  const CHUNK_SIZE := 256

  datatype State = Receive | Send | Dispose

  /** The response that the handler puts into the write buffer, from the method, the path and the
      read buffer. */
  type Handler = (string, string, string) -> string

  // ---------- The connection as a value ----------

  datatype Conn = Conn(
    state: State,
    verb: Option<string>,
    path: Option<string>,
    host: Option<string>,
    contentLength: nat,
    buffer: string,
    bodyStart: nat,
    body: Option<string>,
    out: Option<string>,
    offset: nat)

  const INITIAL := Conn(Receive, None, None, None, 0, "", 0, None, None, 0)

  /** The request in a buffer whose header is complete. */
  function RequestIn(buffer: string): Request {
    ParseRequest(buffer[..HeaderEnd(buffer)])
  }

  /** body_start + content_len bytes have arrived. The sum is one of 64-bit sizes and can wrap. */
  predicate Reached(buffer: string) {
    HeaderEnd(buffer) > 0 && |buffer| >= SizeSum(HeaderEnd(buffer), RequestIn(buffer).contentLength)
  }

  /** A block for the body can be allocated beside the bytes of the header: together they have a size. */
  predicate BodyFits(buffer: string) {
    HeaderEnd(buffer) + RequestIn(buffer).contentLength <= SIZE_MAX
  }

  /** The connection has what it needs to call the handler; only a GET request needs no body. */
  predicate Complete(buffer: string) {
    Reached(buffer) && (RequestIn(buffer).verb == "GET" || BodyFits(buffer))
  }

  /** The body of a complete request; a GET request has none. */
  function BodyIn(buffer: string): Option<string>
    requires Complete(buffer)
  {
    var r := RequestIn(buffer);
    if r.verb == "GET" then None
    else Some(buffer[HeaderEnd(buffer)..HeaderEnd(buffer) + r.contentLength])
  }

  /** A connection that has received buffer and is still waiting for more. */
  function Waiting(buffer: string): Conn {
    if HeaderEnd(buffer) == 0 then INITIAL.(buffer := buffer)
    else
      var r := RequestIn(buffer);
      Conn(Receive, Some(r.verb), Some(r.path), Some(r.host), r.contentLength, buffer, HeaderEnd(buffer), None, None, 0)
  }

  /** A connection that has just received the last byte it needs and called the handler. */
  function Answering(buffer: string, h: Handler): Conn
    requires Complete(buffer)
  {
    var r := RequestIn(buffer);
    Waiting(buffer).(state := Send, body := BodyIn(buffer), out := Some(h(r.verb, r.path, buffer)))
  }

  lemma RequestInStable(p: string, s: string)
    requires p <= s && HeaderEnd(p) > 0
    ensures RequestIn(s) == RequestIn(p)
  {
    HeaderEndStable(p, s);
  }

  /** One receive of a waiting connection. */
  function AfterReceive(c: Conn, h: Handler, r: Read): Conn {
    match r
    case ReadError => c
    case NoData => c
    case Chunk(bytes) =>
      var buffer := c.buffer + bytes;
      if Complete(buffer) then Answering(buffer, h) else Waiting(buffer)
  }

  predicate CanWrite(c: Conn) {
    c.out.Some? && c.offset < |c.out.value|
  }

  predicate Legal(c: Conn, w: Write) {
    w.Accepted? && CanWrite(c) ==> w.n <= |c.out.value| - c.offset
  }

  /** One send: nothing is offered when nothing is left. */
  function AfterSend(c: Conn, w: Write): Conn {
    if !CanWrite(c) then c
    else
      match w
      case WriteError => c.(state := Dispose)
      case WouldBlock => c
      case Accepted(n) => c.(offset := c.offset + n,
                             state := if c.offset + n >= |c.out.value| then Dispose else c.state)
  }

  /** The bytes that the socket takes in one send. */
  function Taken(c: Conn, w: Write): string
    requires Legal(c, w)
  {
    if CanWrite(c) && w.Accepted? then c.out.value[c.offset..c.offset + w.n] else ""
  }

  // ---------- The connection as the code updates it ----------

  class HttpServerConnection {
    var state: State
    var verb: Option<string>
    var requestPath: Option<string>
    var host: Option<string>
    var contentLength: nat
    var readBuffer: string
    var bodyStart: nat
    var body: Option<string>
    var writeBuffer: Option<string>
    var writeSize: nat
    var writeOffset: nat
    var hasTask: bool
    const onRequest: Handler
    /** The history: the bytes read from the socket, those read before the last chunk, the number of
        calls of onRequest, the bytes the socket accepted, whether a write failed. */
    ghost var received: string
    ghost var earlier: string
    ghost var calls: nat
    ghost var accepted: string
    ghost var failed: bool

    function View(): Conn
      reads this
    {
      Conn(state, verb, requestPath, host, contentLength, readBuffer, bodyStart, body, writeBuffer, writeOffset)
    }

    ghost function History(): Trace
      reads this
    {
      Trace(View(), received, earlier, calls, accepted, failed)
    }

    ghost predicate Valid()
      reads this
    {
      && writeSize == (if writeBuffer.Some? then |writeBuffer.value| else 0)
      && writeOffset <= writeSize
      && (state == Receive ==> View() == Waiting(readBuffer) && !Complete(readBuffer))
    }

    /** http_server_connection_initiate and _set_callback. */
    constructor (onRequest: Handler)
      ensures Valid() && History() == START && hasTask && this.onRequest == onRequest
    {
      this.onRequest := onRequest;
      readBuffer, verb, requestPath, host, writeBuffer, body := "", None, None, None, None, None;
      contentLength, writeSize, writeOffset, bodyStart := 0, 0, 0, 0;
      state := Receive;
      hasTask := true;
      received, earlier, calls, accepted, failed := "", "", 0, "", false;
      new;
      assert StrStr("", BLANK_LINE).None?;
    }

    /** Look for the end of the header, and when it is there read the fields from a copy of it. */
    method ParseHeaders()
      requires bodyStart == 0
      modifies `verb, `requestPath, `host, `contentLength, `bodyStart
      ensures bodyStart == HeaderEnd(readBuffer)
      ensures bodyStart > 0 ==>
                var r := RequestIn(readBuffer);
                verb == Some(r.verb) && requestPath == Some(r.path)
                && host == Some(r.host) && contentLength == r.contentLength
      ensures bodyStart == 0 ==>
                verb == old(verb) && requestPath == old(requestPath)
                && host == old(host) && contentLength == old(contentLength)
    {
      hide ParseRequest, HeaderEnd;
      var headerEnd := FindHeaderEnd(readBuffer);
      if headerEnd > 0 {
        var r := ParseRequest(readBuffer[..headerEnd]);
        verb := Some(r.verb);
        requestPath := Some(r.path);
        host := Some(r.host);
        contentLength := r.contentLength;
        bodyStart := headerEnd;
      }
    }

    /** The call of the handler, which fills the write buffer. */
    method CallOnRequest()
      requires verb.Some? && requestPath.Some?
      modifies `writeBuffer, `writeSize, `calls
      ensures writeBuffer == Some(onRequest(verb.value, requestPath.value, readBuffer))
              && writeSize == |writeBuffer.value|
      ensures calls == old(calls) + 1
    {
      calls := calls + 1;
      writeBuffer := Some(onRequest(verb.value, requestPath.value, readBuffer));
      writeSize := |writeBuffer.value|;
    }

    /** The first half of http_server_connection_receive: keep the bytes, and look for the header as
        long as it has not been found. */
    method TakeIn(bytes: string)
      requires Valid() && state == Receive
      modifies `readBuffer, `verb, `requestPath, `host, `contentLength, `bodyStart, `received, `earlier
      ensures readBuffer == old(readBuffer) + bytes && View() == Waiting(readBuffer)
      ensures received == old(received) + bytes && earlier == old(received)
    {
      hide RequestIn;
      ghost var before := readBuffer;
      earlier := received;
      received := received + bytes;
      readBuffer := readBuffer + bytes;
      if bodyStart == 0 {
        ParseHeaders();
      } else {
        HeaderEndStable(before, readBuffer);
        RequestInStable(before, readBuffer);
      }
    }

    /** The second half: call the handler if the request is complete. */
    method AnswerIfComplete() returns (code: int)
      requires View() == Waiting(readBuffer) && writeSize == 0
      modifies `state, `body, `writeBuffer, `writeSize, `calls
      ensures Valid()
      ensures code == if Reached(readBuffer) && !Complete(readBuffer) then -1 else 0
      ensures View() == if Complete(readBuffer) then Answering(readBuffer, onRequest) else Waiting(readBuffer)
      ensures calls == old(calls) + if Complete(readBuffer) then 1 else 0
    {
      hide RequestIn, HeaderEnd, SizeSum;
      if |readBuffer| >= SizeSum(bodyStart, contentLength) && bodyStart > 0 {
        if verb == Some("GET") {
          state := Send;
          CallOnRequest();
          return 0;
        }
        if bodyStart + contentLength > SIZE_MAX {
          return -1;
        }
        body := Some(readBuffer[bodyStart..bodyStart + contentLength]);
        state := Send;
        CallOnRequest();
      }
      return 0;
    }

    /** http_server_connection_receive. It calls the handler once, when the request is complete; a body
        that no block can hold makes it fail, and the connection goes on waiting. */
    method ReceiveChunk(r: Read) returns (code: int)
      requires Valid() && state == Receive
      requires r.Chunk? ==> 0 < |r.bytes| <= CHUNK_SIZE
      modifies this
      ensures Valid() && hasTask == old(hasTask)
      ensures code == if r.ReadError? || (r.Chunk? && Reached(readBuffer) && !Complete(readBuffer)) then -1 else 0
      ensures View() == AfterReceive(old(View()), onRequest, r)
      ensures received == old(received) + (if r.Chunk? then r.bytes else "")
      ensures earlier == if r.Chunk? then old(received) else old(earlier)
      ensures calls == old(calls) + if state == Send then 1 else 0
      ensures accepted == old(accepted) && failed == old(failed)
    {
      hide RequestIn, HeaderEnd, Reached, Complete;
      if r.ReadError? {
        return -1;
      } else if r.NoData? {
        return 0;
      }
      TakeIn(r.bytes);
      code := AnswerIfComplete();
    }

    /** tcp_client_write: what the socket takes of the bytes it is offered. */
    method TcpWrite(offered: string, w: Write) returns (sent: int)
      requires w.Accepted? ==> w.n <= |offered|
      modifies `accepted
      ensures sent == if w.Accepted? then w.n else -1
      ensures accepted == old(accepted) + if w.Accepted? then offered[..w.n] else ""
    {
      match w
      case Accepted(n) =>
        accepted := accepted + offered[..n];
        return n;
      case _ =>
        return -1;
    }

    /** http_server_connection_send. What is offered to the socket is the rest of the response. */
    method SendSome(w: Write) returns (code: int)
      requires Valid() && state == Send && Legal(View(), w)
      modifies this
      ensures Valid() && hasTask == old(hasTask)
      ensures View() == AfterSend(old(View()), w)
      ensures code == if CanWrite(old(View())) && w.WriteError? then -1 else 0
      ensures received == old(received) && earlier == old(earlier) && calls == old(calls)
      ensures accepted == old(accepted) + Taken(old(View()), w)
      ensures failed == (old(failed) || (CanWrite(old(View())) && w.WriteError?))
    {
      if writeBuffer.None? || writeOffset >= writeSize {
        return 0;
      }
      var sent := TcpWrite(writeBuffer.value[writeOffset..writeSize], w);
      if sent > 0 {
        writeOffset := writeOffset + sent;
      } else if sent < 0 {
        if !w.WouldBlock? {
          failed := true;
          state := Dispose;
          return -1;
        }
      }
      if writeOffset >= writeSize {
        state := Dispose;
      }
      return 0;
    }

    /** http_server_connection_dispose: the task is removed and everything is released. */
    method Release()
      requires Valid() && state == Dispose
      modifies `hasTask, `readBuffer, `body, `verb, `requestPath, `host, `writeBuffer
      modifies `writeSize, `writeOffset, `bodyStart, `contentLength
      ensures Valid() && !hasTask && View() == INITIAL.(state := Dispose)
    {
      hide ParseRequest, HeaderEnd, Complete, Waiting;
      hasTask := false;
      readBuffer, body, verb, requestPath, host, writeBuffer := "", None, None, None, None, None;
      writeSize, writeOffset, bodyStart, contentLength := 0, 0, 0, 0;
    }

    /** http_server_connection_task_work: one tick of the connection, with its whole history. */
    method TaskWork(r: Read, w: Write)
      requires Valid() && hasTask && LegalTick(History(), Tick(r, w))
      modifies this
      ensures Valid()
      ensures old(state) != Dispose ==> History() == Step(old(History()), onRequest, Tick(r, w))
      ensures old(state) == Dispose ==>
                History() == Trace(INITIAL.(state := Dispose), old(received), old(earlier),
                                   old(calls), old(accepted), old(failed))
      ensures hasTask <==> old(state) != Dispose
    {
      match state
      case Receive =>
        var _ := ReceiveChunk(r);
      case Send =>
        var _ := SendSome(w);
      case Dispose =>
        Release();
    }
  }

  // ---------- Runs ----------

  datatype Tick = Tick(read: Read, write: Write)

  /** A connection and its history: the bytes received, those received before the last chunk, the
      number of handler calls, the bytes the socket accepted, whether a write failed. */
  datatype Trace = Trace(conn: Conn, stream: string, earlier: string, calls: nat, accepted: string, failed: bool)

  const START := Trace(INITIAL, "", "", 0, "", false)

  predicate LegalTick(t: Trace, tick: Tick) {
    (tick.read.Chunk? ==> 0 < |tick.read.bytes| <= CHUNK_SIZE) && Legal(t.conn, tick.write)
  }

  predicate WriteFails(c: Conn, w: Write) {
    CanWrite(c) && w.WriteError?
  }

  function Step(t: Trace, h: Handler, tick: Tick): Trace
    requires LegalTick(t, tick)
  {
    match t.conn.state
    case Receive =>
      var c := AfterReceive(t.conn, h, tick.read);
      var t' := t.(conn := c, calls := t.calls + if c.state == Send then 1 else 0);
      if tick.read.Chunk? then t'.(stream := t.stream + tick.read.bytes, earlier := t.stream) else t'
    case Send =>
      var c := AfterSend(t.conn, tick.write);
      t.(conn := c, accepted := t.accepted + Taken(t.conn, tick.write),
         failed := t.failed || WriteFails(t.conn, tick.write))
    case Dispose => t
  }

  predicate LegalRun(h: Handler, ticks: seq<Tick>)
    decreases |ticks|, 0
  {
    ticks == [] || (LegalRun(h, ticks[..|ticks| - 1]) && LegalTick(Run(h, ticks[..|ticks| - 1]), ticks[|ticks| - 1]))
  }

  function Run(h: Handler, ticks: seq<Tick>): Trace
    requires LegalRun(h, ticks)
    decreases |ticks|, 1
  {
    if ticks == [] then START else Step(Run(h, ticks[..|ticks| - 1]), h, ticks[|ticks| - 1])
  }

  ghost predicate Inv(t: Trace, h: Handler) {
    && t.conn.buffer == t.stream
    && (t.conn.state == Receive ==>
          t.conn == Waiting(t.stream) && !Complete(t.stream) && t.calls == 0 && t.accepted == "" && !t.failed)
    && (t.conn.state != Receive ==>
          && t.calls == 1
          && Complete(t.stream) && !Complete(t.earlier) && t.earlier < t.stream
          && t.conn == Answering(t.stream, h).(state := t.conn.state, offset := t.conn.offset)
          && t.conn.offset <= |t.conn.out.value| && t.accepted == t.conn.out.value[..t.conn.offset])
    && (t.conn.state == Send ==> !t.failed && (CanWrite(t.conn) || t.conn.out.value == ""))
    && (t.conn.state == Dispose ==> t.failed || t.accepted == t.conn.out.value)
  }

  lemma StepKeepsInv(t: Trace, h: Handler, tick: Tick)
    requires Inv(t, h) && LegalTick(t, tick)
    ensures Inv(Step(t, h, tick), h)
  {
    hide ParseRequest, HeaderEnd;
    match t.conn.state
    case Receive =>
      if tick.read.Chunk? {
        assert |t.stream + tick.read.bytes| > |t.stream|;
      }
    case Send =>
      if CanWrite(t.conn) && tick.write.Accepted? {
        var o, k := t.conn.out.value, t.conn.offset;
        assert o[..k] + o[k..k + tick.write.n] == o[..k + tick.write.n];
        assert o[..|o|] == o;
      }
    case Dispose =>
  }

  /** In every run: the handler is called at most once, and only on a complete request; what it sees
      are the fields and the body of that request; the socket accepts exactly a prefix of its
      response; and without an error the connection is only given up when all of it was accepted. */
  lemma {:induction false} RunInv(h: Handler, ticks: seq<Tick>)
    requires LegalRun(h, ticks)
    ensures Inv(Run(h, ticks), h)
    decreases |ticks|
  {
    if ticks == [] {
      assert StrStr("", BLANK_LINE).None?;
    } else {
      RunInv(h, ticks[..|ticks| - 1]);
      StepKeepsInv(Run(h, ticks[..|ticks| - 1]), h, ticks[|ticks| - 1]);
    }
  }

  function Rank(s: State): nat {
    match s
    case Receive => 0
    case Send => 1
    case Dispose => 2
  }

  /** A connection only moves from Receive to Send to Dispose, one state a tick. */
  lemma StatesMoveForward(t: Trace, h: Handler, tick: Tick)
    requires LegalTick(t, tick)
    ensures Rank(t.conn.state) <= Rank(Step(t, h, tick).conn.state) <= Rank(t.conn.state) + 1
    ensures Step(t, h, tick).calls
            == t.calls + if t.conn.state == Receive && Step(t, h, tick).conn.state == Send then 1 else 0
  {
  }

  /** What the outcomes of the socket that are not progress do: a write error gives the connection up,
      and it is the only one that does; the others leave it as it is. */
  lemma SocketOutcomes(t: Trace, h: Handler, tick: Tick)
    requires LegalTick(t, tick)
    ensures var t' := Step(t, h, tick);
            && (t.conn.state == Receive && !tick.read.Chunk? ==> t' == t)
            && (t.conn.state == Send && tick.write.WouldBlock? ==> t' == t)
            && (t.conn.state == Send && CanWrite(t.conn) && tick.write.WriteError? ==>
                  t' == t.(conn := t.conn.(state := Dispose), failed := true))
            && (t'.failed && !t.failed ==> t.conn.state == Send && tick.write.WriteError?)
  {
  }

  /** A complete request is not changed by the bytes behind it. */
  lemma RequestStable(p: string, s: string)
    requires p <= s && Complete(p)
    ensures Complete(s) && HeaderEnd(s) == HeaderEnd(p) && RequestIn(s) == RequestIn(p) && BodyIn(s) == BodyIn(p)
  {
    hide ParseRequest, HeaderEnd;
    HeaderEndStable(p, s);
    if RequestIn(p).verb != "GET" {
      var k := HeaderEnd(p);
      assert s[k..k + RequestIn(p).contentLength] == p[k..k + RequestIn(p).contentLength];
    }
  }

  /** However a byte stream is cut into chunks, every connection that has left Receive holds the
      request that a one-shot parse of the stream gives. */
  lemma {:induction false} ChunksDoNotMatter(h: Handler, ticks: seq<Tick>, stream: string)
    requires LegalRun(h, ticks)
    requires Run(h, ticks).stream <= stream && Run(h, ticks).conn.state != Receive
    ensures Complete(stream)
    ensures var c, r := Run(h, ticks).conn, RequestIn(stream);
            && c.verb == Some(r.verb) && c.path == Some(r.path) && c.host == Some(r.host)
            && c.contentLength == r.contentLength && c.bodyStart == HeaderEnd(stream) && c.body == BodyIn(stream)
  {
    RunInv(h, ticks);
    RequestStable(Run(h, ticks).stream, stream);
  }

  /** Receive is left exactly at the first chunk boundary at or behind the end of the request. */
  lemma {:induction false} LeavesReceiveWhenComplete(h: Handler, ticks: seq<Tick>)
    requires LegalRun(h, ticks)
    ensures Run(h, ticks).conn.state == Receive <==> !Complete(Run(h, ticks).stream)
    ensures Run(h, ticks).conn.state != Receive ==> !Complete(Run(h, ticks).earlier)
  {
    RunInv(h, ticks);
  }

  /** The number of ticks in which the socket accepts at least one byte. */
  function Productive(ticks: seq<Tick>): nat {
    if ticks == [] then 0
    else
      var w := ticks[|ticks| - 1].write;
      Productive(ticks[..|ticks| - 1]) + if w.Accepted? && w.n > 0 then 1 else 0
  }

  /** While a response is being sent, every such tick brings it on by one byte or more. */
  lemma {:induction false} SendAdvances(h: Handler, ticks: seq<Tick>, more: seq<Tick>)
    requires LegalRun(h, ticks) && LegalRun(h, ticks + more)
    requires Run(h, ticks).conn.state == Send && CanWrite(Run(h, ticks).conn)
    requires forall i | 0 <= i < |more| :: !more[i].write.WriteError?
    ensures var c, t := Run(h, ticks).conn, Run(h, ticks + more);
            && t.conn.out == c.out && !t.failed && t.conn.state != Receive
            && (t.conn.state == Send ==> CanWrite(t.conn) && t.conn.offset >= c.offset + Productive(more))
    decreases |more|
  {
    hide Step, LegalTick, CanWrite, Answering, Complete, Waiting;
    if more == [] {
      assert ticks + more == ticks;
      RunInv(h, ticks);
    } else {
      var all, front := ticks + more, more[..|more| - 1];
      assert all[..|all| - 1] == ticks + front && all[|all| - 1] == more[|more| - 1];
      SendAdvances(h, ticks, front);
      SendStep(Run(h, ticks + front), h, more[|more| - 1]);
    }
  }

  lemma SendStep(t: Trace, h: Handler, tick: Tick)
    requires LegalTick(t, tick) && t.conn.state != Receive && !tick.write.WriteError?
    ensures var t' := Step(t, h, tick);
            && t'.conn.out == t.conn.out && t'.failed == t.failed && t'.conn.state != Receive
            && (t'.conn.state == Send && CanWrite(t.conn) ==>
                  && CanWrite(t'.conn) && t.conn.state == Send
                  && t'.conn.offset >= t.conn.offset + if tick.write.Accepted? && tick.write.n > 0 then 1 else 0)
            && (t'.conn.state == Send ==> t.conn.state == Send)
  {
  }

  /** In every run: once a response is being sent, no write fails, and as many ticks accept a byte or
      more as there are bytes left, the connection is to be disposed of and the whole response was
      accepted, once and in order. Any number of ticks may block in between. */
  lemma {:induction false} SendFinishes(h: Handler, ticks: seq<Tick>, more: seq<Tick>)
    requires LegalRun(h, ticks) && LegalRun(h, ticks + more)
    requires Run(h, ticks).conn.state == Send && CanWrite(Run(h, ticks).conn)
    requires forall i | 0 <= i < |more| :: !more[i].write.WriteError?
    requires Productive(more) >= |Run(h, ticks).conn.out.value| - Run(h, ticks).conn.offset
    ensures var t := Run(h, ticks + more);
            && t.conn.state == Dispose && !t.failed
            && t.accepted == Run(h, ticks).conn.out.value
  {
    hide Run, LegalRun, Productive, Answering, Complete, Waiting;
    SendAdvances(h, ticks, more);
    RunInv(h, ticks + more);
  }

  lemma {:induction false} PrefixLegal(h: Handler, ticks: seq<Tick>, k: nat)
    requires LegalRun(h, ticks) && k <= |ticks|
    ensures LegalRun(h, ticks[..k])
    decreases |ticks|
  {
    if k == |ticks| {
      assert ticks[..k] == ticks;
    } else {
      assert ticks[..|ticks| - 1][..k] == ticks[..k];
      PrefixLegal(h, ticks[..|ticks| - 1], k);
    }
  }

  lemma {:induction false} RunOneMore(h: Handler, ticks: seq<Tick>, i: nat)
    requires LegalRun(h, ticks) && i < |ticks|
    ensures LegalRun(h, ticks[..i]) && LegalRun(h, ticks[..i + 1])
    ensures LegalTick(Run(h, ticks[..i]), ticks[i])
    ensures Run(h, ticks[..i + 1]) == Step(Run(h, ticks[..i]), h, ticks[i])
  {
    PrefixLegal(h, ticks, i);
    PrefixLegal(h, ticks, i + 1);
    assert ticks[..i + 1][..i] == ticks[..i];
  }

  lemma {:induction false} DisposedStays(h: Handler, ticks: seq<Tick>, i: nat)
    requires LegalRun(h, ticks) && i <= |ticks| && LegalRun(h, ticks[..i])
    requires i < |ticks| ==> Run(h, ticks[..i]).conn.state == Dispose
    ensures Run(h, ticks) == Run(h, ticks[..i])
    decreases |ticks|
  {
    if i == |ticks| {
      assert ticks[..i] == ticks;
    } else {
      assert ticks[..|ticks| - 1][..i] == ticks[..i];
      DisposedStays(h, ticks[..|ticks| - 1], i);
    }
  }

  lemma FirstRun(h: Handler, ticks: seq<Tick>)
    ensures LegalRun(h, ticks[..0]) && Run(h, ticks[..0]) == START
  {
  }

  /** A connection that the scheduler calls once per tick, until it is to be disposed of, goes
      through the run of those ticks, with the same bytes read and accepted and the same calls. */
  method Serve(onRequest: Handler, ticks: seq<Tick>) returns (c: HttpServerConnection)
    requires LegalRun(onRequest, ticks)
    ensures c.Valid() && c.History() == Run(onRequest, ticks) && Inv(c.History(), onRequest)
  {
    hide Step, Inv, LegalRun, LegalTick;
    c := new HttpServerConnection(onRequest);
    var i := 0;
    FirstRun(onRequest, ticks);
    while i < |ticks| && c.state != Dispose
      invariant i <= |ticks| && fresh(c) && c.Valid() && c.hasTask && c.onRequest == onRequest
      invariant LegalRun(onRequest, ticks[..i]) && c.History() == Run(onRequest, ticks[..i])
    {
      RunOneMore(onRequest, ticks, i);
      c.TaskWork(ticks[i].read, ticks[i].write);
      i := i + 1;
    }
    DisposedStays(onRequest, ticks, i);
    RunInv(onRequest, ticks);
  }
}
