/** The socket worker and its HTTP callbacks as the C code runs them: flags, a
    receive buffer and a response buffer that the loop updates. */
module ConnectionWorker {
  import opened Chunks
  import opened HttpHead
  import opened HttpTables
  import opened StringBuffer
  import opened Connection
  import HttpParser

  const SOCKET_ERROR := -1
  const ERROR_RECV_SHUTDOWN := -2
  const ERROR_SEND_SHUTDOWN := -3

  /** The connection after a result of sending. */
  function Sending(c: Conn, n: int): Conn {
    if n == SOCKET_ERROR then c.(select := false, close := SendFailed, recv := true)
    else if n == 0 then c.(select := false, close := NothingLeft, send := true)
    else c.(send := true, sendShutdown := c.sendShutdown || n == ERROR_RECV_SHUTDOWN)
  }

  /** Sending from the rest of the response: the result, and the connection then. */
  function Offering(c: Conn, s: Sent): (r: (int, Conn)) {
    if c.sentPos >= |c.response| then (0, c)
    else
      match s
      case SendError => (SOCKET_ERROR, c)
      case Bytes(n) =>
        var out := AtMost(c.response[c.sentPos..], n);
        (if out == [] then ERROR_SEND_SHUTDOWN else |out|, c.(wire := c.wire + out, sentPos := c.sentPos + |out|))
  }

  /** Result and reaction together are one send of the machine. */
  lemma OfferingIsAfterSend(c: Conn, s: Sent)
    ensures var r := Offering(Connection.HttpSend(c), s); AfterSend(c, s) == Sending(r.1, r.0)
  {
    hide Connection.HttpSend;
  }

  class Worker {
    var isSelect: bool
    var isRecv: bool
    var isSend: bool
    var isRecvShutdown: bool
    var isSendShutdown: bool
    const http: HttpParser.Parser
    const response: String
    var isHeaderRecv: bool
    var isHeaderSend: bool
    var wire: seq<char>
    var close: Close

    ghost predicate Valid()
      reads this, http, response
    {
      http.Valid() && response.Valid() && response.writePos < response.buf.Length
      && response.isAlloc && response.isInit && response.isNullTerminated
      && (!isHeaderRecv ==> http.readPos == 0)
    }

    ghost function Repr(): set<object>
      reads this, response
    {
      {this, http, http.requestUri, response, response.buf}
    }

    function Abs(): Conn
      requires response.writePos <= response.buf.Length
      reads this, http, http.requestUri, response, response.buf
    {
      Conn(isSelect, isRecv, isSend, isRecvShutdown, isSendShutdown, http.Head(), isHeaderRecv, isHeaderSend,
           http.request, response.Data(), response.readPos, wire, close)
    }

    /** A fresh struct for a connection the server has accepted. */
    constructor ()
      ensures Valid() && fresh(Repr()) && Abs() == START
    {
      isSelect, isRecv, isSend, isRecvShutdown, isSendShutdown := true, true, false, false, false;
      isHeaderRecv, isHeaderSend, wire, close := false, false, [], Open;
      http := new HttpParser.Parser();
      response := new String();
      new;
      var ok := response.Malloc(SEND_SIZE);
      response.isInit := true;
    }

    method HttpRecv()
      requires Valid()
      modifies this, http, http.requestUri
      ensures Valid() && Abs() == Connection.HttpRecv(old(Abs()))
    {
      hide ParseHead;
      if !isHeaderRecv {
        var ok := http.ParseRequestHeaders();
        if ok {
          isHeaderRecv := true;
        }
      }
      if isHeaderRecv && http.verb == METHOD_GET {
        isSelect, isSend := true, true;
        isRecv, isRecvShutdown, isSendShutdown := false, false, false;
      }
    }

    /** Receives into the request buffer and acts on the result. */
    method RecvTurn(r: Received)
      requires Valid()
      modifies this, http, http.requestUri
      ensures Valid() && Abs() == AfterRecv(old(Abs()), r)
    {
      hide ParseHead, Connection.HttpRecv;
      var bytesRecv := 0;
      if |http.request| < RECV_SIZE {
        match r
        case Data(bytes) =>
          var got := AtMost(bytes, RECV_SIZE - |http.request|);
          http.request := http.request + got;
          bytesRecv := if got == [] then ERROR_RECV_SHUTDOWN else |got|;
        case RecvShutdown => bytesRecv := ERROR_RECV_SHUTDOWN;
        case RecvError => bytesRecv := SOCKET_ERROR;
      }
      if bytesRecv > 0 {
        isRecv := true;
        HttpRecv();
      } else if bytesRecv == 0 {
        isSelect, close := false, NoSpace;
      } else if bytesRecv == SOCKET_ERROR {
        isSelect, close := false, RecvFailed;
      } else if bytesRecv == ERROR_RECV_SHUTDOWN {
        assert http.request == old(http.request);
        isRecvShutdown := true;
      }
    }

    /** Appends to a string that owns its buffer. */
    static method Extend(s: String, bytes: seq<char>)
      requires s.Valid() && Owned(s.Abs())
      modifies s, s.buf
      ensures s.Valid() && Owned(s.Abs()) && s.Data() == old(s.Data()) + bytes
      ensures s.isNullTerminated == old(s.isNullTerminated) && (s.buf == old(s.buf) || fresh(s.buf))
      ensures bytes != [] || old(s.isInit) ==> s.isInit
      ensures s.readPos == if bytes == [] then old(s.readPos) else 0
    {
      OneAppend(s.Abs(), bytes);
      s.AddChars(bytes);
    }

    /** A fresh string to read from the start. */
    static ghost predicate Fresh(s: String, bytes: seq<char>)
      reads s, s.buf
    {
      s.Valid() && s.Unread() == bytes
    }

    /** Status and reason, as the status line shows them. */
    static function Phrase(): seq<char> { "200" + " " + "OK" }

    static method ReasonPhrase() returns (s: String)
      ensures fresh(s) && fresh(s.buf) && Fresh(s, Phrase())
    {
      s := new String();
      var code, space, phrase := "200", " ", "OK";
      FirstAppend(s.Abs(), code);
      s.AddChars(code);
      Extend(s, space);
      Extend(s, phrase);
    }

    static method Entity() returns (s: String)
      ensures fresh(s) && fresh(s.buf) && Fresh(s, BODY) && s.writePos == |BODY|
    {
      s := new String();
      var body := BODY;
      s.SetChars(body);
    }

    /** A null-terminated string that owns its buffer, with these bytes to read. */
    static ghost predicate Building(s: String, bytes: seq<char>)
      reads s, s.buf
    {
      s.Valid() && Owned(s.Abs()) && s.isInit && s.isNullTerminated && s.readPos == 0 && s.Data() == bytes
    }

    static method Build(s: String, ghost built: seq<char>, bytes: seq<char>)
      requires Building(s, built)
      modifies s, s.buf
      ensures Building(s, built + bytes) && (s.buf == old(s.buf) || fresh(s.buf))
    {
      hide Owned;
      Extend(s, bytes);
    }

    /** Appends the bytes another string has left to read. */
    static method BuildBy(s: String, ghost built: seq<char>, other: String)
      requires Building(s, built) && other.Valid() && other != s && other.buf != s.buf
      modifies s, s.buf
      ensures Building(s, built + old(other.Unread())) && (s.buf == old(s.buf) || fresh(s.buf))
    {
      OneAppend(s.Abs(), other.Unread());
      s.Add(other);
    }

    /** Status line, length line, empty line and body. */
    static method AppendParts(s: String, version: seq<char>, reason: String, end: seq<char>, name: seq<char>,
                              length: seq<char>, entity: String)
      requires Building(s, [])
      requires reason.Valid() && reason != s && reason.buf != s.buf
      requires entity.Valid() && entity != s && entity.buf != s.buf
      modifies s, s.buf
      ensures s.buf == old(s.buf) || fresh(s.buf)
      ensures Building(s, version + old(reason.Unread()) + end + name + length + end + old(entity.Unread()))
    {
      hide Building;
      ghost var r := reason.Unread();
      Build(s, [], version);
      assert [] + version == version;
      BuildBy(s, version, reason);
      Build(s, version + r, end);
      Build(s, version + r + end, name);
      Build(s, version + r + end + name, length);
      Build(s, version + r + end + name + length, end);
      BuildBy(s, version + r + end + name + length + end, entity);
    }

    /** The parts of the response, one behind the other. */
    static lemma PartsAreResponse(length: seq<char>)
      requires length == ": " + Decimal(|BODY|) + "\r\n"
      ensures "HTTP/1.1 " + Phrase() + "\r\n" + "Content-Length" + length + "\r\n" + BODY == Response()
    {
      hide Decimal;
    }

    /** An owned string that is emptied can be built up again. */
    static method Restart(s: String)
      requires s.Valid() && s.writePos < s.buf.Length && s.isAlloc && s.isInit && s.isNullTerminated
      modifies s
      ensures Building(s, []) && s.buf == old(s.buf)
    {
      s.Clean();
      assert s.Data() == [];
    }

    static lemma BuildingIs(s: String, bytes: seq<char>)
      requires Building(s, bytes)
      ensures s.Valid() && s.writePos < s.buf.Length && s.isAlloc && s.isInit && s.isNullTerminated
      ensures s.Data() == bytes && s.readPos == 0
    {
    }

    /** Builds the response in its buffer. */
    method CreateResponse()
      requires Valid()
      modifies response, response.buf
      ensures Valid() && response.Data() == Response() && response.readPos == 0
      ensures response.buf == old(response.buf) || fresh(response.buf)
    {
      hide Response, Decimal, Building, Phrase, HttpParser.Parser.Valid;
      var reason := ReasonPhrase();
      var entity := Entity();
      var version, end, name := "HTTP/1.1 ", "\r\n", "Content-Length";
      var length := ": " + Decimal(entity.writePos) + end;
      PartsAreResponse(length);
      Restart(response);
      AppendParts(response, version, reason, end, name, length, entity);
      BuildingIs(response, Response());
    }

    method HttpSend()
      requires Valid()
      modifies this, response, response.buf
      ensures Valid() && Abs() == Connection.HttpSend(old(Abs()))
      ensures response.buf == old(response.buf) || fresh(response.buf)
    {
      hide Response;
      if !isHeaderSend {
        CreateResponse();
        isHeaderSend := true;
      }
    }

    /** Sends from the response buffer: the number of bytes, or what went wrong. */
    method SendRest(s: Sent) returns (bytesSend: int)
      requires Valid()
      modifies this`wire, response`readPos
      ensures Valid()
      ensures (bytesSend, Abs()) == Offering(old(Abs()), s)
    {
      bytesSend := 0;
      if response.writePos < response.buf.Length && response.readPos < response.writePos {
        match s
        case SendError => bytesSend := SOCKET_ERROR;
        case Bytes(n) =>
          var rest := response.buf[response.readPos..response.writePos];
          assert rest == response.Data()[response.readPos..];
          var out := AtMost(rest, n);
          wire := wire + out;
          response.readPos := response.readPos + |out|;
          bytesSend := if out == [] then ERROR_SEND_SHUTDOWN else |out|;
      }
    }

    /** Sends and acts on the result. */
    method SendTurn(s: Sent)
      requires Valid()
      modifies this, response, response.buf
      ensures Valid() && Abs() == AfterSend(old(Abs()), s)
      ensures response.buf == old(response.buf) || fresh(response.buf)
    {
      hide Response, Connection.HttpSend, AfterSend, Offering, Sending;
      OfferingIsAfterSend(Abs(), s);
      HttpSend();
      var bytesSend := SendRest(s);
      SendResult(bytesSend);
    }

    /** Acts on the result of sending; the number of a send shutdown has no branch. */
    method SendResult(bytesSend: int)
      requires Valid()
      modifies this`isSelect, this`isSend, this`isRecv, this`isSendShutdown, this`close
      ensures Valid() && Abs() == Sending(old(Abs()), bytesSend)
    {
      if bytesSend > 0 {
        isSend := true;
      } else if bytesSend == 0 {
        isSelect, close := false, NothingLeft;
      } else if bytesSend == SOCKET_ERROR {
        isSelect, close := false, SendFailed;
      } else if bytesSend == ERROR_RECV_SHUTDOWN {
        isSendShutdown := true;
      }
      if bytesSend != SOCKET_ERROR {
        isSend := true;
      } else {
        isRecv := true;
      }
    }

    /** The loop, for as many turns as the environment has results for. */
    method Run(events: seq<Event>)
      requires Valid()
      modifies Repr()
      ensures Valid() && Abs() == Connection.Run(old(Abs()), events)
    {
      hide Next, AfterRecv, AfterSend;
      ghost var c := Abs();
      var i := 0;
      while isSelect && i < |events|
        invariant i <= |events| && Valid() && fresh(Repr() - old(Repr()))
        invariant Connection.Run(c, events) == Connection.Run(Abs(), events[i..])
      {
        RunStep(Abs(), events, i);
        Turn(events[i]);
        i := i + 1;
      }
      if !isSelect { Stopped(Abs(), events[i..]); }
    }

    /** One turn of the loop. */
    method Turn(e: Event)
      requires Valid() && isSelect
      modifies Repr()
      ensures Valid() && Abs() == Next(old(Abs()), e) && fresh(Repr() - old(Repr()))
    {
      hide AfterRecv, AfterSend;
      var watchSend, watchRecv := false, false;
      if isSend {
        watchSend := true;
        isSend := false;
      } else if isRecv {
        watchRecv := true;
        isRecv := false;
      }
      if e.ready > 0 {
        if watchRecv {
          RecvTurn(e.received);
        }
        if watchSend {
          SendTurn(e.sent);
        }
      } else if e.ready == 0 {
        isSelect, close := false, TimedOut;
      } else if e.ready == SOCKET_ERROR {
        isSelect, close := false, SelectFailed;
      }
    }
  }

  lemma RunStep(c: Conn, events: seq<Event>, i: nat)
    requires i < |events|
    ensures Connection.Run(c, events[i..]) == Connection.Run(Next(c, events[i]), events[i + 1..])
  {
    assert events[i..][1..] == events[i + 1..];
  }
}
