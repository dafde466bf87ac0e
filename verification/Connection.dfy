/** One HTTP connection: the select loop of a worker and its HTTP callbacks, as
    a state machine over whatever select, recv and send return. */
module Connection {
  import opened Chunks
  import opened HttpHead
  import opened HttpTables
  import opened HttpRequest
  import opened RequestTarget

  // ---------------------------------------------------------------- response

  const BODY := "<html><head><title>Hello</title></head><body><h1>Hello, World!</h1></body></html>"

  function Decimal(n: nat): seq<char> {
    if n < 10 then ['0' + n as char] else Decimal(n / 10) + ['0' + (n % 10) as char]
  }

  /** The one response the worker sends. */
  function Response(): seq<char> {
    "HTTP/1.1 " + ("200" + " " + "OK") + "\r\n" + "Content-Length" + (": " + Decimal(|BODY|) + "\r\n") + "\r\n" + BODY
  }

  /** Bytes the receive buffer holds. */
  const RECV_SIZE := 1048576
  const SEND_SIZE := 1048576

  // ------------------------------------------------------------- environment

  /** What recv and send do when they are called; they take no more than there
      is room for, or than is offered. */
  datatype Received = Data(bytes: seq<char>) | RecvShutdown | RecvError
  datatype Sent = Bytes(count: nat) | SendError

  /** One turn of the loop: the result of select, and of the call that follows. */
  datatype Event = Event(ready: int, received: Received, sent: Sent)

  // ------------------------------------------------------------------- state

  /** Why the loop stopped. */
  datatype Close = Open | NothingLeft | NoSpace | RecvFailed | SendFailed | TimedOut | SelectFailed

  datatype Conn = Conn(
    select: bool, recv: bool, send: bool, recvShutdown: bool, sendShutdown: bool,
    http: Head, headerRecv: bool, headerSend: bool,
    request: seq<char>, response: seq<char>, sentPos: nat, wire: seq<char>, close: Close)

  /** A fresh struct, and the flags the server hands over. */
  const START := Conn(true, true, false, false, false, FRESH, false, false, [], [], 0, [], Open)

  /** The receive callback: tries the head, and switches to sending for GET. */
  function HttpRecv(c: Conn): Conn {
    var r := ParseHead(c.request, 0, c.http);
    var d := if c.headerRecv then c else c.(http := r.head, headerRecv := r.ok);
    if d.headerRecv && d.http.verb == METHOD_GET
    then d.(select := true, send := true, recv := false, recvShutdown := false, sendShutdown := false)
    else d
  }

  function AfterRecv(c: Conn, r: Received): Conn {
    if |c.request| >= RECV_SIZE then c.(select := false, close := NoSpace)
    else
      match r
      case Data(bytes) =>
        if bytes == [] then c.(recvShutdown := true)
        else HttpRecv(c.(request := c.request + AtMost(bytes, RECV_SIZE - |c.request|), recv := true))
      case RecvShutdown => c.(recvShutdown := true)
      case RecvError => c.(select := false, close := RecvFailed)
  }

  /** The send callback: builds the response the first time. */
  function HttpSend(c: Conn): Conn {
    if c.headerSend then c else c.(response := Response(), sentPos := 0, headerSend := true)
  }

  /** Sending zero bytes counts as sending; only an error or an empty rest ends the loop. */
  function AfterSend(c: Conn, s: Sent): Conn {
    var d := HttpSend(c);
    if d.sentPos >= |d.response| then d.(select := false, send := true, close := NothingLeft)
    else
      match s
      case SendError => d.(select := false, recv := true, close := SendFailed)
      case Bytes(n) =>
        var out := AtMost(d.response[d.sentPos..], n);
        d.(send := true, wire := d.wire + out, sentPos := d.sentPos + |out|)
  }

  /** One turn of the loop. */
  function Next(c: Conn, e: Event): Conn {
    if !c.select then c
    else if e.ready > 0 then
      if c.send then AfterSend(c.(send := false), e.sent)
      else if c.recv then AfterRecv(c.(recv := false), e.received)
      else c
    else
      var d := if c.send then c.(send := false) else c.(recv := false);
      if e.ready == 0 then d.(select := false, close := TimedOut)
      else if e.ready == -1 then d.(select := false, close := SelectFailed)
      else d
  }

  function Run(c: Conn, events: seq<Event>): Conn
    decreases |events|
  {
    if events == [] then c else Run(Next(c, events[0]), events[1..])
  }

  // --------------------------------------------------------------- invariant

  /** What the tries so far left in the struct cannot be told from a fresh one
      by any try that succeeds. */
  ghost predicate Harmless(t: seq<char>, h: Head) {
    forall u: seq<char> :: t <= u && ParseHead(u, 0, FRESH).ok ==> ParseHead(u, 0, h) == ParseHead(u, 0, FRESH)
  }

  /** The struct holds the head of the request received so far. */
  predicate HeadParsed(c: Conn) {
    var r := ParseHead(c.request, 0, FRESH);
    r.ok && c.http == r.head
  }

  ghost predicate Good(c: Conn) {
    && (if c.headerRecv then HeadParsed(c) else !ParseHead(c.request, 0, FRESH).ok && Harmless(c.request, c.http))
    && (c.headerSend ==> c.response == Response() && c.sentPos <= |c.response| && c.wire == c.response[..c.sentPos])
    && (!c.headerSend ==> c.response == [] && c.sentPos == 0 && c.wire == [])
    && (c.headerSend || c.send ==> c.headerRecv && c.http.verb == METHOD_GET)
    && ((c.headerSend || c.send) && c.select ==> !c.recv)
    && (c.close == NothingLeft ==> c.headerSend && c.wire == c.response)
    && (c.select <==> c.close == Open)
  }

  lemma NothingParsesYet(h: Head)
    ensures !ParseHead([], 0, h).ok
  {
  }

  lemma StartIsGood()
    ensures Good(START)
  {
    NothingParsesYet(FRESH);
  }

  /** A try at a grown buffer: it succeeds exactly when a fresh struct would,
      and then fills the struct in the same way. */
  lemma TryHead(t: seq<char>, u: seq<char>, h: Head)
    requires t <= u && Harmless(t, h)
    ensures var r := ParseHead(u, 0, h);
      && r.ok == ParseHead(u, 0, FRESH).ok && (r.ok ==> r == ParseHead(u, 0, FRESH))
      && (!r.ok ==> Harmless(u, r.head))
  {
    hide ParseHead;
    var r := ParseHead(u, 0, h);
    SameAnswer(u, 0, h, FRESH);
    if !r.ok {
      forall v: seq<char> | u <= v && ParseHead(v, 0, FRESH).ok
        ensures ParseHead(v, 0, r.head) == ParseHead(v, 0, FRESH)
      {
        assert t <= v;
        FailureIsForgotten(u, v, 0, h);
      }
    }
  }

  lemma RecvKeepsGood(c: Conn, more: seq<char>)
    requires Good(c) && c.select && !c.headerSend
    ensures Good(HttpRecv(c.(request := c.request + more, recv := true, send := false)))
  {
    hide ParseHead, Harmless;
    var u := c.request + more;
    if c.headerRecv {
      SuccessExtends(c.request, u, 0, FRESH);
    } else {
      TryHead(c.request, u, c.http);
    }
  }

  lemma SentMore(w: seq<char>, p: nat, n: nat)
    requires p <= |w|
    ensures var out := AtMost(w[p..], n); p + |out| <= |w| && w[..p] + out == w[..p + |out|]
  {
  }

  lemma SendKeepsGood(c: Conn, s: Sent)
    requires Good(c) && c.select && c.send
    ensures Good(AfterSend(c.(send := false), s))
  {
    hide ParseHead, Harmless, Response;
    var d := HttpSend(c.(send := false));
    assert d.response[..|d.response|] == d.response && d.response[..0] == [];
    if s.Bytes? && d.sentPos < |d.response| { SentMore(d.response, d.sentPos, s.count); }
  }

  lemma StepKeepsGood(c: Conn, e: Event)
    requires Good(c)
    ensures Good(Next(c, e))
  {
    hide ParseHead, Harmless, Response, HttpRecv, AfterSend, HeadParsed;
    if c.select && e.ready > 0 && c.send {
      SendKeepsGood(c, e.sent);
    } else if c.select && e.ready > 0 && c.recv && e.received.Data? && |c.request| < RECV_SIZE
              && e.received.bytes != [] {
      var more := AtMost(e.received.bytes, RECV_SIZE - |c.request|);
      RecvKeepsGood(c, more);
      assert c.(recv := false).(request := c.request + more, recv := true) ==
             c.(request := c.request + more, recv := true, send := false);
    } else {
      SameHead(c, Next(c, e));
    }
  }

  lemma SameHead(c: Conn, d: Conn)
    requires c.request == d.request && c.http == d.http
    ensures HeadParsed(c) == HeadParsed(d)
  {
  }

  lemma {:induction false} RunKeepsGood(c: Conn, events: seq<Event>)
    requires Good(c)
    ensures Good(Run(c, events))
    decreases |events|
  {
    hide Good, Next;
    if events != [] {
      StepKeepsGood(c, events[0]);
      RunKeepsGood(Next(c, events[0]), events[1..]);
    }
  }

  // ------------------------------------------------------------------ theorems

  /** Whatever select, recv and send return: the wire carries a prefix of the one
      response, nothing is sent before the bytes received hold the head of a GET
      request, and "nothing left" means the whole response was sent. */
  lemma EveryRunIsSafe(events: seq<Event>)
    ensures var c := Run(START, events);
      && c.wire <= Response()
      && (c.wire != [] ==> HeadParsed(c) && c.http.verb == METHOD_GET)
      && (c.close == NothingLeft ==> c.wire == Response())
      && (c.select <==> c.close == Open)
  {
    hide ParseHead, Response;
    StartIsGood();
    RunKeepsGood(START, events);
  }

  /** The shutdown flag of the sending side is set in no run: the code compares
      the result of send with the number of a receive shutdown. */
  lemma {:induction false} SendShutdownIsNeverSeen(c: Conn, events: seq<Event>)
    requires !c.sendShutdown
    ensures !Run(c, events).sendShutdown
    decreases |events|
  {
    hide ParseHead, Response;
    if events != [] { SendShutdownIsNeverSeen(Next(c, events[0]), events[1..]); }
  }

  /** Bytes not yet sent, counting the response before it is built. */
  function Remaining(c: Conn): int { (if c.headerSend then |c.response| else |Response()|) - c.sentPos }

  /** Every event lets send take no byte. */
  predicate NoneSend(events: seq<Event>) {
    forall i :: 0 <= i < |events| ==> events[i].ready > 0 && events[i].sent == Bytes(0)
  }

  /** As long as send takes no byte of a response that has bytes left, the loop
      goes on, and nothing changes once the response is built. */
  lemma {:induction false} ZeroSendsNeverEnd(c: Conn, events: seq<Event>)
    requires Good(c) && c.select && c.send && Remaining(c) > 0 && NoneSend(events)
    ensures Run(c, events) == if events == [] then c else HttpSend(c)
    ensures Run(c, events).select && Run(c, events).wire == c.wire
    decreases |events|
  {
    hide ParseHead, Response, Harmless, HeadParsed;
    if events != [] {
      var d := Next(c, events[0]);
      assert events[0].ready > 0 && events[0].sent == Bytes(0);
      assert d.wire == c.wire && d == HttpSend(c);
      StepKeepsGood(c, events[0]);
      ZeroSendsNeverEnd(d, events[1..]);
    }
  }

  /** Every event lets send take at least one byte. */
  predicate AllSend(events: seq<Event>) {
    forall i :: 0 <= i < |events| ==> events[i].ready > 0 && events[i].sent.Bytes? && events[i].sent.count > 0
  }

  /** Once the loop sends, it delivers the whole response when send keeps taking
      bytes, and only then stops. */
  lemma {:induction false} SendingDelivers(c: Conn, events: seq<Event>)
    requires Good(c) && c.select && c.send && AllSend(events) && |events| > Remaining(c)
    ensures Run(c, events).close == NothingLeft && Run(c, events).wire == Response()
    decreases |events|
  {
    hide ParseHead, Response, Harmless, HeadParsed;
    var d := Next(c, events[0]);
    assert events[0].ready > 0 && events[0].sent.Bytes? && events[0].sent.count > 0;
    StepKeepsGood(c, events[0]);
    if d.select {
      SendingDelivers(d, events[1..]);
    } else {
      Stopped(d, events[1..]);
    }
  }

  /** Every event has data to receive and lets send take at least one byte. */
  predicate Benign(events: seq<Event>) {
    AllSend(events) && forall i :: 0 <= i < |events| ==> events[i].received.Data? && events[i].received.bytes != []
  }

  function Arrived(events: seq<Event>): seq<char>
    requires Benign(events)
    decreases |events|
  {
    if events == [] then [] else events[0].received.bytes + Arrived(events[1..])
  }

  /** Still waiting for the head. */
  predicate Waiting(c: Conn) { c.select && c.recv && !c.send && !c.headerRecv }

  lemma RecvStep(c: Conn, e: Event)
    requires Waiting(c) && Good(c) && e.ready > 0 && e.received.Data? && e.received.bytes != []
    requires |c.request| + |e.received.bytes| <= RECV_SIZE
    ensures var d := Next(c, e); var u := c.request + e.received.bytes; var r := ParseHead(u, 0, FRESH);
      && d.request == u && d.select && d.headerRecv == r.ok
      && (r.ok && r.head.verb == METHOD_GET ==> d.send && !d.headerSend && d.sentPos == 0)
      && (!r.ok ==> Waiting(d))
  {
    hide ParseHead, Harmless, Response;
    var u := c.request + e.received.bytes;
    assert AtMost(e.received.bytes, RECV_SIZE - |c.request|) == e.received.bytes;
    TryHead(c.request, u, c.http);
  }

  /** A GET request whose head the parser accepts, and which arrives within the
      first `k` events, is answered in full, however it is cut into pieces. */
  lemma {:induction false} HeadIsAnswered(c: Conn, events: seq<Event>, k: nat)
    requires Good(c) && Waiting(c) && Benign(events) && k <= |events| && Benign(events[..k])
    requires var total := c.request + Arrived(events[..k]);
      && |total| <= RECV_SIZE
      && ParseHead(total, 0, FRESH).ok && ParseHead(total, 0, FRESH).head.verb == METHOD_GET
    requires |events| > k + |Response()|
    ensures Run(c, events).close == NothingLeft && Run(c, events).wire == Response()
    decreases |events|
  {
    hide ParseHead, Response, Harmless, HeadParsed, Next, Good;
    var total := c.request + Arrived(events[..k]);
    WaitingHasNone(c);
    assert k == 0 ==> total == c.request;
    assert events[..k][0] == events[0] && events[..k][1..] == events[1..][..k - 1];
    var d, rest := Next(c, events[0]), events[1..];
    var u := c.request + events[0].received.bytes;
    assert total == u + Arrived(rest[..k - 1]) && |u| <= |total|;
    RecvStep(c, events[0]);
    StepKeepsGood(c, events[0]);
    if ParseHead(u, 0, FRESH).ok {
      SuccessExtends(u, total, 0, FRESH);
      SendingDelivers(d, rest);
    } else {
      HeadIsAnswered(d, rest, k - 1);
    }
  }

  lemma WaitingHasNone(c: Conn)
    requires Good(c) && Waiting(c)
    ensures !ParseHead(c.request, 0, FRESH).ok
  {
  }

  /** No beginning of the text is the head of a GET request to the parser. */
  ghost predicate NeverGet(t: seq<char>) {
    forall u: seq<char> :: u <= t ==> !(ParseHead(u, 0, FRESH).ok && ParseHead(u, 0, FRESH).head.verb == METHOD_GET)
  }

  lemma GoodWithoutGet(c: Conn, t: seq<char>)
    requires Good(c) && NeverGet(t) && c.request <= t
    ensures c.wire == [] && !c.send
  {
    hide ParseHead, Harmless, Response;
  }

  /** A full buffer takes nothing more. */
  lemma FullStays(c: Conn, events: seq<Event>)
    requires Benign(events) && |c.request| >= RECV_SIZE && !c.send && (c.recv || !c.select)
    ensures Run(c, events).request == c.request
  {
    hide ParseHead;
    if events != [] { Stopped(Next(c, events[0]), events[1..]); }
  }

  lemma RecvNext(c: Conn, e: Event, t: seq<char>)
    requires c.select && c.recv && !c.send && |c.request| < RECV_SIZE
    requires e.ready > 0 && e.received.Data? && e.received.bytes != []
    ensures var d := Next(c, e);
      && d.request == c.request + AtMost(e.received.bytes, RECV_SIZE - |c.request|)
      && d.select && (!d.send ==> d.recv)
  {
    hide ParseHead;
  }

  lemma Piece(a: seq<char>, b: seq<char>, room: nat)
    ensures a + AtMost(b, room) <= a + b
  {
  }

  /** What is received is a beginning of what arrives, as long as no GET request
      is found in it. */
  lemma {:induction false} Collected(c: Conn, events: seq<Event>)
    requires Good(c) && Benign(events) && NeverGet(c.request + Arrived(events)) && (c.recv || !c.select)
    ensures Run(c, events).request <= c.request + Arrived(events)
    decreases |events|
  {
    hide ParseHead, Response, Harmless, HeadParsed, NeverGet, Good, Next;
    var t := c.request + Arrived(events);
    GoodWithoutGet(c, t);
    if !c.select {
      Stopped(c, events);
    } else if |c.request| >= RECV_SIZE {
      FullStays(c, events);
    } else if events != [] {
      var d, b := Next(c, events[0]), events[0].received.bytes;
      assert events[0].ready > 0 && events[0].received.Data? && b != [];
      RecvNext(c, events[0], t);
      StepKeepsGood(c, events[0]);
      assert t == c.request + b + Arrived(events[1..]);
      Piece(c.request, b, RECV_SIZE - |c.request|);
      GoodWithoutGet(d, t);
      if |c.request| + |b| <= RECV_SIZE { Collected(d, events[1..]); } else { FullStays(d, events[1..]); }
    }
  }

  /** A text whose request line is refused, or asks for another method, holds the
      head of no GET request. */
  lemma OtherLineIsNeverGet(l: Line, t: seq<char>)
    requires LegalLine(l) && LineText(l) <= t && !(l.verb == METHOD_GET && Accepted(l.target))
    ensures NeverGet(t)
  {
    hide ParseHead, LegalLine, LineText, HasEmptyLine, PlacesOf, Accepted;
    var rest := t[|LineText(l)|..];
    assert t == LineText(l) + rest;
    HeadIff(l, rest);
    forall u: seq<char> | u <= t
      ensures !(ParseHead(u, 0, FRESH).ok && ParseHead(u, 0, FRESH).head.verb == METHOD_GET)
    {
      if ParseHead(u, 0, FRESH).ok { SuccessExtends(u, t, 0, FRESH); }
    }
  }

  /** Whatever select, recv and send return: nothing is sent when the bytes
      received start with a legal line that the parser refuses or whose method is
      not GET. */
  lemma OtherLineIsNotAnswered(events: seq<Event>, l: Line)
    requires LegalLine(l) && !(l.verb == METHOD_GET && Accepted(l.target))
    requires LineText(l) <= Run(START, events).request
    ensures Run(START, events).wire == []
  {
    hide ParseHead, Response, NeverGet, LegalLine, LineText, Accepted, Good, Run;
    StartIsGood();
    RunKeepsGood(START, events);
    OtherLineIsNeverGet(l, Run(START, events).request);
    GoodWithoutGet(Run(START, events), Run(START, events).request);
  }

  /** The events in front of the k-th and those behind. */
  lemma {:induction false} ArrivedParts(events: seq<Event>, k: nat)
    requires Benign(events) && k <= |events| && Benign(events[..k])
    ensures Arrived(events[..k]) <= Arrived(events)
    decreases k
  {
    if k > 0 {
      assert events[..k][0] == events[0] && events[..k][1..] == events[1..][..k - 1];
      ArrivedParts(events[1..], k - 1);
    } else {
      assert events[..k] == [];
    }
  }

  lemma StartWaits()
    ensures Good(START) && Waiting(START) && START.request == [] && START.recv
  {
    StartIsGood();
  }

  /** A request of any legal line, header block and body that fits the receive
      buffer, cut into pieces in any way: a GET request whose target is accepted
      is answered in full, and nothing at all is sent for any other. */
  lemma RequestIsAnswered(events: seq<Event>, k: nat, l: Line, fields: seq<char>, rest: seq<char>)
    requires LegalLine(l) && HeaderBlock(fields) && |RequestText(l, fields, rest)| <= RECV_SIZE
    requires Benign(events) && k <= |events| && Benign(events[..k]) && |events| > k + |Response()|
    requires Arrived(events[..k]) == RequestText(l, fields, rest)
    ensures var c := Run(START, events);
      if l.verb == METHOD_GET && Accepted(l.target) then c.close == NothingLeft && c.wire == Response()
      else c.wire == []
  {
    hide ParseHead, Response, LegalLine, LineText, Accepted, Good, Run, HeaderBlock, PlacesOf, Benign, Arrived,
      NeverGet, Waiting;
    var t := RequestText(l, fields, rest);
    StartWaits();
    RequestIff(l, fields, rest);
    assert START.request + Arrived(events[..k]) == t;
    if l.verb == METHOD_GET && Accepted(l.target) {
      HeadIsAnswered(START, events, k);
    } else {
      ArrivedParts(events, k);
      assert START.request + Arrived(events) == Arrived(events);
      assert LineText(l) <= t <= Arrived(events);
      OtherLineIsNeverGet(l, Arrived(events));
      Collected(START, events);
      RunKeepsGood(START, events);
      GoodWithoutGet(Run(START, events), Arrived(events));
    }
  }

  /** Nothing happens after the loop has stopped. */
  lemma {:induction false} Stopped(c: Conn, events: seq<Event>)
    requires !c.select
    ensures Run(c, events) == c
    decreases |events|
  {
    if events != [] { Stopped(c, events[1..]); }
  }

  /** A connection that has sent a byte never receives again. */
  lemma NoRecvAfterSend(c: Conn, e: Event)
    requires Good(c) && c.wire != []
    ensures Next(c, e).request == c.request && Next(c, e).http == c.http
  {
    hide ParseHead, Response, Harmless, HeadParsed;
  }

  /** The length the header announces is the length of the body, and what
      stands in front of the body ends in an empty line. */
  lemma LengthIsAnnounced()
    ensures Response() == "HTTP/1.1 200 OK\r\nContent-Length: 81\r\n\r\n" + BODY && |BODY| == 81
  {
    assert Decimal(8) == "8" && Decimal(81) == "81";
  }

  /** The number of a decimal text is the number that was printed. */
  lemma {:induction false} DecimalReadsBack(n: nat)
    ensures Value(Decimal(n)) == n && Decimal(n) != []
  {
    var d := '0' + (n % 10) as char;
    if n < 10 {
      ValueMore([], d);
      assert [] + [d] == Decimal(n);
    } else {
      DecimalReadsBack(n / 10);
      ValueMore(Decimal(n / 10), d);
    }
  }
}
