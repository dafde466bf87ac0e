/** When the loop of a connection ends, and why. */
module ConnectionClose {
  import opened Chunks
  import opened HttpHead
  import opened HttpTables
  import opened Connection

  /** The event is the cause of a close: select timed out or failed, whatever
      the loop watched; there was no room or an error while receiving; there
      was nothing left or an error while sending. */
  predicate Causes(c: Conn, e: Event, why: Close) {
    match why
    case Open => false
    case TimedOut => e.ready == 0
    case SelectFailed => e.ready == -1
    case NothingLeft => e.ready > 0 && c.send && Remaining(c) <= 0
    case SendFailed => e.ready > 0 && c.send && Remaining(c) > 0 && e.sent == SendError
    case NoSpace => e.ready > 0 && !c.send && c.recv && |c.request| >= RECV_SIZE
    case RecvFailed => e.ready > 0 && !c.send && c.recv && |c.request| < RECV_SIZE && e.received == RecvError
  }

  /** No close is caused. */
  predicate GoesOn(c: Conn, e: Event) {
    && !Causes(c, e, TimedOut) && !Causes(c, e, SelectFailed) && !Causes(c, e, NothingLeft)
    && !Causes(c, e, SendFailed) && !Causes(c, e, NoSpace) && !Causes(c, e, RecvFailed)
  }

  lemma RestIs(c: Conn)
    requires Good(c)
    ensures Remaining(c) <= 0 <==> HttpSend(c.(send := false)).sentPos >= |HttpSend(c.(send := false)).response|
  {
    hide HeadParsed;
    LengthIsAnnounced();
  }

  lemma SendOutcome(x: Conn, s: Sent)
    requires x.select
    ensures var d := HttpSend(x); var r := AfterSend(x, s); var rest := d.sentPos < |d.response|;
      && (r.select <==> rest && s != SendError)
      && (!rest ==> r.close == NothingLeft) && (rest && s == SendError ==> r.close == SendFailed)
  {
    SendIs(x);
    hide HttpSend;
  }

  lemma SendNext(c: Conn, e: Event)
    requires c.select && c.send && e.ready > 0
    ensures Next(c, e) == AfterSend(c.(send := false), e.sent)
  {
    hide AfterSend;
  }

  lemma SendCauses(c: Conn, e: Event)
    requires c.send && e.ready > 0
    ensures GoesOn(c, e) <==> Remaining(c) > 0 && e.sent != SendError
  {
    hide Remaining;
  }

  lemma SendTurnEnds(c: Conn, e: Event)
    requires Good(c) && c.select && c.send && e.ready > 0
    ensures var d := Next(c, e);
      && (d.select <==> GoesOn(c, e)) && (Remaining(c) <= 0 ==> d.close == NothingLeft)
      && (Remaining(c) > 0 && e.sent == SendError ==> d.close == SendFailed)
  {
    hide *;
    RestIs(c);
    SendNext(c, e);
    SendCauses(c, e);
    SendOutcome(c.(send := false), e.sent);
  }

  lemma SendIs(c: Conn)
    ensures HttpSend(c).select == c.select && HttpSend(c).close == c.close
  {
    hide Response;
  }

  lemma RecvIs(c: Conn)
    requires c.select
    ensures HttpRecv(c).select && HttpRecv(c).close == c.close
  {
  }

  lemma RecvTurnEnds(c: Conn, e: Event)
    requires c.select && !c.send && c.recv && e.ready > 0
    ensures var d := Next(c, e);
      && (d.select <==> GoesOn(c, e)) && (|c.request| >= RECV_SIZE ==> d.close == NoSpace)
      && (|c.request| < RECV_SIZE && e.received == RecvError ==> d.close == RecvFailed)
  {
    hide HttpRecv, Remaining;
    forall x: Conn | x.select ensures HttpRecv(x).select { RecvIs(x); }
  }

  /** One turn ends the loop exactly when its event causes a close, and then
      with the reason that belongs to the event. */
  lemma TurnEndsIff(c: Conn, e: Event, why: Close)
    requires Good(c) && c.select
    ensures Next(c, e).select <==> GoesOn(c, e)
    ensures Causes(c, e, why) ==> Next(c, e).close == why
  {
    hide HttpRecv, HttpSend, HeadParsed, Remaining, Good, AfterRecv, AfterSend;
    if e.ready > 0 && c.send { SendTurnEnds(c, e); }
    if e.ready > 0 && !c.send && c.recv { RecvTurnEnds(c, e); }
  }

  // -------------------------------------------------------------------- runs

  lemma RunMore(c: Conn, events: seq<Event>, k: nat)
    requires 0 < k <= |events|
    ensures Run(c, events[..k]) == Run(Next(c, events[0]), events[1..][..k - 1])
  {
    assert events[..k][0] == events[0] && events[..k][1..] == events[1..][..k - 1];
  }

  /** For every run: the loop is still open exactly when no event on the way
      caused a close: no timeout or failure of select, no full buffer and no
      error while receiving, no empty rest and no error while sending. */
  lemma {:induction false} OpenIff(c: Conn, events: seq<Event>)
    requires Good(c) && c.select
    ensures Run(c, events).select <==> forall k :: 0 <= k < |events| ==> GoesOn(Run(c, events[..k]), events[k])
    decreases |events|
  {
    hide Good, Next, GoesOn;
    if events != [] {
      var d, rest := Next(c, events[0]), events[1..];
      assert Run(c, events[..0]) == c;
      TurnEndsIff(c, events[0], Open);
      if d.select {
        StepKeepsGood(c, events[0]);
        OpenIff(d, rest);
        forall k | 0 < k < |events|
          ensures GoesOn(Run(c, events[..k]), events[k]) == GoesOn(Run(d, rest[..k - 1]), rest[k - 1])
        {
          RunMore(c, events, k);
        }
        if Run(c, events).select {
          forall k | 0 <= k < |events| ensures GoesOn(Run(c, events[..k]), events[k]) {
            if k > 0 { assert GoesOn(Run(d, rest[..k - 1]), rest[k - 1]); }
          }
        } else {
          var j :| 0 <= j < |rest| && !GoesOn(Run(d, rest[..j]), rest[j]);
          assert !GoesOn(Run(c, events[..j + 1]), events[j + 1]);
        }
      } else {
        Stopped(d, rest);
      }
    }
  }

  lemma SomeCause(c: Conn, e: Event) returns (why: Close)
    requires !GoesOn(c, e)
    ensures why != Open && Causes(c, e, why)
  {
    why := if Causes(c, e, TimedOut) then TimedOut
           else if Causes(c, e, SelectFailed) then SelectFailed
           else if Causes(c, e, NothingLeft) then NothingLeft
           else if Causes(c, e, SendFailed) then SendFailed
           else if Causes(c, e, NoSpace) then NoSpace
           else RecvFailed;
  }

  /** A loop that has ended was ended by one event: it was open up to it, the
      event caused the close the struct shows, and nothing changed any more. */
  lemma {:induction false} EndedBy(c: Conn, events: seq<Event>) returns (k: nat)
    requires Good(c) && c.select && !Run(c, events).select
    ensures k < |events| && Run(c, events[..k]).select
    ensures Causes(Run(c, events[..k]), events[k], Run(c, events).close)
    ensures Run(c, events) == Run(c, events[..k + 1])
    decreases |events|
  {
    hide Good, Next, GoesOn, Causes;
    var d, rest := Next(c, events[0]), events[1..];
    StepKeepsGood(c, events[0]);
    if d.select {
      k := EndedBy(d, rest);
      k := k + 1;
      RunMore(c, events, k);
      RunMore(c, events, k + 1);
    } else {
      k := 0;
      TurnEndsIff(c, events[0], Open);
      var why := SomeCause(c, events[0]);
      TurnEndsIff(c, events[0], why);
      Stopped(d, rest);
      assert Run(c, events[..0]) == c && Run(c, events[..1]) == d by {
        RunMore(c, events, 1);
        assert rest[..0] == [];
      }
    }
  }

  /** When the other side shuts down while the loop receives, the loop watches
      nothing any more: only a timeout or a failure of select ends it. */
  lemma {:induction false} ShutdownIsSleep(c: Conn, e: Event, events: seq<Event>)
    requires c.select && c.recv && !c.send && |c.request| < RECV_SIZE
    requires e.ready > 0 && (e.received == RecvShutdown || e.received == Data([]))
    requires forall k :: 0 <= k < |events| ==> events[k].ready != 0 && events[k].ready != -1
    ensures Run(c, [e] + events) == c.(recv := false, recvShutdown := true)
    decreases |events|
  {
    var d := c.(recv := false, recvShutdown := true);
    assert ([e] + events)[1..] == events && Next(c, e) == d;
    Asleep(d, events);
  }

  lemma {:induction false} Asleep(d: Conn, events: seq<Event>)
    requires d.select && !d.recv && !d.send
    requires forall k :: 0 <= k < |events| ==> events[k].ready != 0 && events[k].ready != -1
    ensures Run(d, events) == d
    decreases |events|
  {
    if events != [] {
      assert Next(d, events[0]) == d;
      Asleep(d, events[1..]);
    }
  }

  /** A timeout closes the connection at once. */
  lemma TimeoutCloses(received: Received, sent: Sent)
    ensures var c := Run(START, [Event(0, received, sent)]); !c.select && c.close == TimedOut
  {
    assert [Event(0, received, sent)][1..] == [];
  }

  // ------------------------------------------------------------- other methods

  /** The head of a request with another method than GET has been read. */
  predicate OtherMethod(c: Conn) {
    c.select && c.recv && !c.send && c.headerRecv && c.http.verb != METHOD_GET
  }

  lemma OtherNext(c: Conn, e: Event)
    requires OtherMethod(c) && e.ready > 0 && e.received.Data? && e.received.bytes != []
    ensures |c.request| >= RECV_SIZE ==> Next(c, e).close == NoSpace && !Next(c, e).select
    ensures |c.request| < RECV_SIZE ==>
      var d := Next(c, e);
      && OtherMethod(d) && d.request == c.request + AtMost(e.received.bytes, RECV_SIZE - |c.request|)
      && |c.request| < |d.request| <= RECV_SIZE && d.wire == c.wire
  {
    hide ParseHead;
  }

  /** Such a request is never answered: the loop goes on receiving until the
      buffer is full, and closes for want of room. */
  lemma {:induction false} OtherMethodFillsUp(c: Conn, events: seq<Event>)
    requires OtherMethod(c) && |c.request| <= RECV_SIZE && Benign(events) && |events| > RECV_SIZE - |c.request|
    ensures Run(c, events).close == NoSpace && Run(c, events).wire == c.wire
    decreases |events|
  {
    hide Next, OtherMethod;
    FirstBenign(c, events);
    if |c.request| >= RECV_SIZE {
      Stopped(Next(c, events[0]), events[1..]);
      WireStays(c, events[0]);
    } else {
      OtherMethodFillsUp(Next(c, events[0]), events[1..]);
    }
  }

  lemma FirstBenign(c: Conn, events: seq<Event>)
    requires OtherMethod(c) && Benign(events) && events != []
    ensures |c.request| >= RECV_SIZE ==> Next(c, events[0]).close == NoSpace && !Next(c, events[0]).select
    ensures |c.request| < RECV_SIZE ==>
      var d := Next(c, events[0]);
      OtherMethod(d) && |c.request| < |d.request| <= RECV_SIZE && d.wire == c.wire && Benign(events[1..])
  {
    hide Next, OtherMethod;
    assert events[0].ready > 0 && events[0].received.Data? && events[0].received.bytes != [];
    OtherNext(c, events[0]);
  }

  lemma WireStays(c: Conn, e: Event)
    requires OtherMethod(c)
    ensures Next(c, e).wire == c.wire
  {
    hide ParseHead;
  }

  /** A result of select below -1 closes nothing, but the loop has forgotten what
      it watched: it sleeps as well. */
  lemma {:induction false} OddResultIsSleep(c: Conn, e: Event, events: seq<Event>)
    requires c.select && e.ready < -1 && (!c.send || !c.recv)
    requires forall k :: 0 <= k < |events| ==> events[k].ready != 0 && events[k].ready != -1
    ensures Run(c, [e] + events) == c.(recv := false, send := false)
    decreases |events|
  {
    var d := c.(recv := false, send := false);
    assert ([e] + events)[1..] == events && Next(c, e) == d;
    Asleep(d, events);
  }

  lemma FlagsOutcome(x: Conn, s: Sent)
    requires !HttpSend(x).recv && !HttpSend(x).send
    ensures var d := HttpSend(x); var r := AfterSend(x, s);
      if d.sentPos < |d.response| && s == SendError then r.recv && !r.send else r.send && !r.recv
  {
    hide HttpSend;
  }

  lemma FailedIs(c: Conn, e: Event)
    requires c.send && e.ready > 0
    ensures Causes(c, e, SendFailed) <==> Remaining(c) > 0 && e.sent == SendError
  {
    hide Remaining;
  }

  /** What the flags show behind a turn that sends: still sending, but after an
      error the loop is set to receive. */
  lemma SendFlags(c: Conn, e: Event)
    requires Good(c) && c.select && c.send && e.ready > 0
    ensures var d := Next(c, e);
      if Causes(c, e, SendFailed) then d.recv && !d.send else d.send && !d.recv
  {
    hide *;
    SendNext(c, e);
    RestIs(c);
    KeepsReceiving(c);
    FailedIs(c, e);
    FlagsOutcome(c.(send := false), e.sent);
  }

  lemma KeepsReceiving(c: Conn)
    requires Good(c) && c.select && c.send
    ensures !c.recv && HttpSend(c.(send := false)).recv == c.recv && !HttpSend(c.(send := false)).send
  {
    hide HeadParsed, Response;
  }

  /** A GET head turns the loop to sending and clears the shutdown flags. */
  lemma GetTurnsToSending(c: Conn)
    requires ParseHead(c.request, 0, c.http).ok && ParseHead(c.request, 0, c.http).head.verb == METHOD_GET
    requires !c.headerRecv
    ensures var d := HttpRecv(c);
      d.headerRecv && d.select && d.send && !d.recv && !d.recvShutdown && !d.sendShutdown && d.request == c.request
  {
    hide ParseHead;
  }

  /** Request and response buffers hold a mebibyte each, and the response fits. */
  lemma BufferSizes()
    ensures RECV_SIZE == 1024 * 1024 == SEND_SIZE && |Response()| < SEND_SIZE
  {
    LengthIsAnnounced();
  }
}
