/**
 What callers of the session can rely on, over every run, and the exact cases
 where they cannot.
 */
module SessionResults {
  import opened Bytes
  import opened Sorting
  import opened SmppCodec
  import opened Session
  import opened SessionRuns
  import opened SessionHistory

  // ------------------------------------------------------------------ safety

  /** No task sends on a channel that was closed or sent on before, and none closes one twice. */
  lemma NothingPanics(events: seq<Event>, i: nat)
    requires Run(events).Some? && i < |Run(events).value.tasks|
    ensures var s := Run(events).value;
            var t := s.tasks[i];
            && t.ch < |s.chans| && s.chans[t.ch].closes == 0
            && (t.SendReply? ==> s.chans[t.ch].sends == 0 && s.chans[t.ch].answer.Some?)
  {
    RunKeepsInv(events);
    var s := Run(events).value;
    assert Holder(s, InTask(i)) == Some(s.tasks[i].ch);
  }

  /**
   In any run: the state of the session is consistent, and a channel gets at most one send and one
   close, and neither once lost.
   */
  lemma SafeChannels(events: seq<Event>, c: ChanId)
    requires Run(events).Some? && c < |Run(events).value.chans|
    ensures SharedInv(Run(events).value.shared)
    ensures var chan := Run(events).value.chans[c];
            && chan.sends <= 1 && chan.closes <= 1
            && (chan.lost.Some? ==> chan.sends == 0 && chan.closes == 0)
            && (chan.closes == 1 && chan.answer.Some? ==> chan.sends == 1)
  {
    RunKeepsInv(events);
    assert ChanInv(Run(events).value.chans[c]);
  }

  // ------------------------------------------------------------------- steps

  /**
   What the mutex protects, after each event and field by field. A Connect only reports its progress
   until it publishes connection and done channel; a Close clears everything; a request adds its
   number when there is a connection, and takes it out when it gives up; a PDU takes out its own.
   */
  lemma SharedAfter(s: System, e: Event)
    requires Inv(s) && Step(s, e).Some?
    ensures var a, b := s.shared, Step(s, e).value.shared;
            && b.conn == (if e.OnBound? then Some(|s.draws|) else if e.OnClose? then None else a.conn)
            && b.done == (if e.OnBound? then Some(|s.chans|) else if e.OnClose? then None else a.done)
            && b.status == (match e
                            case OnStartConnect => if a.status == Bound && a.conn.Some? then Bound else Connecting
                            case OnConnectFailed => Disconnected
                            case OnBound => Bound
                            case OnClose => Disconnected
                            case _ => a.status)
    ensures var a, b := s.shared.pending, Step(s, e).value.shared.pending;
            match e
            case OnClose => b == map[]
            case OnRequest(t) =>
              && t < |s.tickets|
              && b == if s.shared.conn.Some? then a[s.tickets[t].ord % 0x1_0000_0000 := |s.chans|] else a
            case OnGiveUp(c) => IsRequest(s, c) && b == a - {s.chans[c].role.sequence}
            case OnReply(_, pdu) =>
              b == if pdu.commandID in {0x05, 0x06, 0x15} then a else a - {pdu.sequenceNumber}
            case _ => b == a
  {
    if e.OnReply? { ArrivalOrReply(s, e.from, e.pdu); }
    hide Inv, ClosingTasks;
  }

  /** When a request can wake, and with what: a reply before a close, and a close when that is all there is. */
  lemma WakesWith(s: System, c: ChanId)
    ensures Step(s, OnReceive(c)).Some? <==>
            && IsRequest(s, c) && s.chans[c].ended.None? && (s.chans[c].sends > 0 || s.chans[c].closes > 0)
    ensures Step(s, OnReceive(c)).Some? ==>
              Step(s, OnReceive(c)).value.chans[c].ended == Some(if s.chans[c].sends > 0 then GotReply else GotClosed)
    ensures Step(s, OnGiveUp(c)).Some? <==> IsRequest(s, c) && s.chans[c].ended.None?
  {
  }

  // ----------------------------------------------------------------- replies

  /** What Request returns: the reply it received, of the expected command unless none is expected. */
  function Outcome(c: Chan, expected: uint32): Result<PDU> {
    if c.ended != Some(GotReply) || c.answer.None? then Err(NotFound)
    else if expected != 0 && c.answer.value.pdu.commandID != expected then Err(WrongKind)
    else Ok(c.answer.value.pdu)
  }

  /** The events a channel remembers are those of the run. */
  ghost predicate Remembers(c: Chan, events: seq<Event>) {
    && c.born < |events|
    && (match c.role case DoneChan => events[c.born] == OnBound
         case ReplyChan(t, _, _, _) => events[c.born] == OnRequest(t))
    && (c.answer.Some? ==>
         c.answer.value.at < |events| && events[c.answer.value.at] == OnReply(c.answer.value.from, c.answer.value.pdu))
  }

  /** A channel that was there remembers what it did, or the event that answers it now. */
  lemma StepRemembers(s: System, e: Event, c: ChanId, init: seq<Event>)
    requires Inv(s) && Step(s, e).Some? && c < |s.chans| && s.time == |init| && Remembers(s.chans[c], init)
    ensures c < |Step(s, e).value.chans| && Remembers(Step(s, e).value.chans[c], init + [e])
  {
    hide Step, Inv, Remembers;
    TimesOfStep(s, e);
    RoleOfStep(s, e, c);
    AgedRemembers(s, e, c, Step(s, e).value.chans[c], init);
  }

  lemma AgedRemembers(s: System, e: Event, c: ChanId, after: Chan, init: seq<Event>)
    requires c < |s.chans| && s.time == |init| && Remembers(s.chans[c], init)
    requires after.role == s.chans[c].role && Aged(s, e, after, c)
    ensures Remembers(after, init + [e])
  {
    hide Matched;
  }

  lemma RoleOfStep(s: System, e: Event, c: ChanId)
    requires Step(s, e).Some? && c < |s.chans|
    ensures c < |Step(s, e).value.chans| && Step(s, e).value.chans[c].role == s.chans[c].role
  {
    hide Step;
    StepGrows(s, e);
  }

  /** A new channel remembers the event that made it. */
  lemma NewlyRemembers(s: System, e: Event, c: ChanId, init: seq<Event>)
    requires Step(s, e).Some? && |s.chans| <= c < |Step(s, e).value.chans| && s.time == |init|
    ensures Remembers(Step(s, e).value.chans[c], init + [e])
  {
    NewChan(s, e);
    hide Step;
  }

  lemma {:induction false} RunRemembers(events: seq<Event>, c: ChanId)
    requires Run(events).Some? && c < |Run(events).value.chans|
    ensures Run(events).value.time == |events|
    ensures Remembers(Run(events).value.chans[c], events)
    decreases |events|
  {
    hide Step, Remembers, Inv;
    RunTime(events);
    assert events != [];
    var init, e := events[..|events| - 1], events[|events| - 1];
    var s := Run(init).value;
    assert events == init + [e];
    RunTime(init);
    if c < |s.chans| {
      RunRemembers(init, c);
      RunKeepsInv(init);
      StepRemembers(s, e, c, init);
    } else {
      NewlyRemembers(s, e, c, init);
    }
  }

  lemma {:induction false} RunTime(events: seq<Event>)
    requires Run(events).Some?
    ensures Run(events).value.time == |events|
  {
    if events != [] {
      RunTime(events[..|events| - 1]);
      SharedOfStep(Run(events[..|events| - 1]).value, events[|events| - 1]);
    }
  }

  /**
   A reply that Request returns was read after the request was enrolled, carries its number and
   the expected command, and the event that read it is returned to no other request.
   */
  lemma ReplyIsItsOwn(events: seq<Event>, c: ChanId, expected: uint32)
    requires Run(events).Some? && c < |Run(events).value.chans|
    requires Outcome(Run(events).value.chans[c], expected).Ok?
    ensures var s := Run(events).value;
            var chan := s.chans[c];
            var reply := Outcome(chan, expected).value;
            && IsRequest(s, c) && chan.sends == 1
            && chan.born < chan.answer.value.at < |events|
            && events[chan.born] == OnRequest(chan.role.ticket)
            && events[chan.answer.value.at] == OnReply(chan.answer.value.from, reply)
            && chan.role.ticket < |s.tickets|
            && reply.sequenceNumber == chan.role.sequence == NumberOf(s.tickets[chan.role.ticket])
            && (expected != 0 ==> reply.commandID == expected) && reply.commandID !in {0x05, 0x06, 0x15}
            && forall d | 0 <= d < |s.chans| && d != c && s.chans[d].answer.Some? ::
                 s.chans[d].answer.value.at != chan.answer.value.at
  {
    RunHistory(events);
    RunRemembers(events, c);
    ArrivalsAnswerNobody(events, c);
    var s := Run(events).value;
    assert ChanInv(s.chans[c]);
    assert WellEnrolled(s, c);
  }

  /** Every request sent on a connection drew its number from that connection. */
  ghost predicate OwnNumbers(s: System, k: ConnId) {
    forall c: ChanId | IsRequest(s, c) && s.chans[c].role.conn == k && s.chans[c].role.ticket < |s.tickets| ::
      s.tickets[s.chans[c].role.ticket].conn == k
  }

  /** Numbers on a connection do not repeat, as long as they come from it and have not wrapped around. */
  lemma NumbersDiffer(events: seq<Event>, k: ConnId, c: ChanId, d: ChanId)
    requires Run(events).Some? && k < |Run(events).value.draws|
    requires var s := Run(events).value;
             && OwnNumbers(s, k) && s.draws[k] < 0x1_0000_0000
             && IsRequest(s, c) && s.chans[c].role.conn == k
             && IsRequest(s, d) && s.chans[d].role.conn == k
             && s.chans[c].role.sequence == s.chans[d].role.sequence
    ensures c == d
  {
    RunHistory(events);
    var s := Run(events).value;
    assert WellEnrolled(s, c) && WellEnrolled(s, d);
    var t, u := s.chans[c].role.ticket, s.chans[d].role.ticket;
    hide NumberOf, Run, Inv, Losses, Times;
    SmallNumber(s.tickets[t]);
    SmallNumber(s.tickets[u]);
    assert s.tickets[t].ord <= s.draws[k] && s.tickets[u].ord <= s.draws[k];
    assert t == u;
  }

  /** The difference is a multiple of 2^32. */
  predicate Congruent(x: int, y: int) {
    (x - y) % 0x1_0000_0000 == 0
  }

  /**
   Exactly when two requests have the same number: when their draws differ by a multiple of 2^32,
   from whatever connections these are. Two draws from one connection are never the same.
   */
  lemma NumbersExactly(events: seq<Event>, c: ChanId, d: ChanId)
    requires Run(events).Some?
    requires IsRequest(Run(events).value, c) && IsRequest(Run(events).value, d) && c != d
    ensures var s := Run(events).value;
            var t, u := s.chans[c].role.ticket, s.chans[d].role.ticket;
            && t < |s.tickets| && u < |s.tickets| && t != u
            && (s.chans[c].role.sequence == s.chans[d].role.sequence <==>
                Congruent(s.tickets[t].ord, s.tickets[u].ord))
            && (s.tickets[t].conn == s.tickets[u].conn ==> s.tickets[t].ord != s.tickets[u].ord)
  {
    RunHistory(events);
    hide Run, Inv, Losses, Times, NumberOf, Requests, Numbering, Congruent;
    TwoTickets(Run(events).value, c, d);
  }

  lemma TwoTickets(s: System, c: ChanId, d: ChanId)
    requires Numbering(s) && Requests(s) && IsRequest(s, c) && IsRequest(s, d) && c != d
    ensures var t, u := s.chans[c].role.ticket, s.chans[d].role.ticket;
            && t < |s.tickets| && u < |s.tickets| && t != u
            && (s.chans[c].role.sequence == s.chans[d].role.sequence <==>
                Congruent(s.tickets[t].ord, s.tickets[u].ord))
            && (s.tickets[t].conn == s.tickets[u].conn ==> s.tickets[t].ord != s.tickets[u].ord)
  {
    hide NumberOf;
    assert WellEnrolled(s, c) && WellEnrolled(s, d);
    var t, u := s.chans[c].role.ticket, s.chans[d].role.ticket;
    assert t < u || u < t;
    hide Requests, Numbering, Congruent;
    SameNumber(s.tickets[t], s.tickets[u]);
  }

  lemma SameNumber(t: Ticket, u: Ticket)
    ensures NumberOf(t) == NumberOf(u) <==> Congruent(t.ord, u.ord)
  {
  }

  lemma SmallNumber(t: Ticket)
    ensures t.ord < 0x1_0000_0000 ==> NumberOf(t) == t.ord
  {
  }

  /** The reply went to the one request that its connection had sent under that number. */
  lemma ReplyCorrelation(events: seq<Event>, c: ChanId, expected: uint32, d: ChanId)
    requires Run(events).Some? && c < |Run(events).value.chans|
    requires var s := Run(events).value;
             && Outcome(s.chans[c], expected).Ok? && IsRequest(s, c)
             && s.chans[c].answer.value.from == s.chans[c].role.conn
             && OwnNumbers(s, s.chans[c].role.conn)
             && (s.chans[c].role.conn < |s.draws| ==> s.draws[s.chans[c].role.conn] < 0x1_0000_0000)
    ensures var s := Run(events).value;
            (IsRequest(s, d) && s.chans[d].role.conn == s.chans[c].answer.value.from
             && s.chans[d].role.sequence == Outcome(s.chans[c], expected).value.sequenceNumber) ==> d == c
  {
    RunHistory(events);
    var s := Run(events).value;
    ReplyIsItsOwn(events, c, expected);
    assert WellEnrolled(s, c);
    if IsRequest(s, d) && s.chans[d].role.conn == s.chans[c].role.conn
        && s.chans[d].role.sequence == s.chans[c].role.sequence {
      NumbersDiffer(events, s.chans[c].role.conn, c, d);
    }
  }

  // ---------------------------------------------------- one Connect at a time

  /** No Connect publishes a connection while another one is there. */
  ghost predicate NoOverlap(events: seq<Event>) {
    events != [] ==>
    && NoOverlap(events[..|events| - 1])
    && (events[|events| - 1] == OnBound ==>
          Run(events[..|events| - 1]).Some? && Run(events[..|events| - 1]).value.shared.conn.None?)
  }

  /** Who waits, waits on the current connection and its done channel. */
  ghost predicate WaitsOnCurrent(s: System) {
    forall n | n in s.shared.pending ::
      && IsRequest(s, s.shared.pending[n])
      && Some(s.chans[s.shared.pending[n]].role.conn) == s.shared.conn
      && s.chans[s.shared.pending[n]].role.done == s.shared.done
  }

  /** No done channel was replaced, and what took an entry away belongs to no later connection. */
  ghost predicate LostToOlder(s: System) {
    forall c | 0 <= c < |s.chans| && s.chans[c].lost.Some? :: LostTo(s, c)
  }

  predicate LostTo(s: System, c: ChanId)
    requires c < |s.chans| && s.chans[c].lost.Some?
  {
    match s.chans[c].lost.value
    case Superseded => false
    case Withdrawn => true
    case RemovedBy(d) => IsRequest(s, c) && IsRequest(s, d) && s.chans[d].role.conn <= s.chans[c].role.conn
    case Overwritten(d) => IsRequest(s, c) && IsRequest(s, d) && s.chans[d].role.conn == s.chans[c].role.conn
  }

  ghost predicate Current(s: System) {
    WaitsOnCurrent(s) && LostToOlder(s)
  }

  lemma WaitsOnCurrentKept(s: System, e: Event)
    requires Inv(s) && WaitsOnCurrent(s) && Step(s, e).Some?
    requires e == OnBound ==> s.shared.conn.None?
    ensures WaitsOnCurrent(Step(s, e).value)
  {
    var s' := Step(s, e).value;
    StepGrows(s, e);
    NewChan(s, e);
    TableOfStep(s, e);
    assert SharedInv(s.shared);
    assert forall c | 0 <= c < |s.chans| :: s'.chans[c].role == s.chans[c].role;
    hide Step, Inv, Grows;
  }

  lemma ConsistentState(s: System)
    requires Inv(s)
    ensures SharedInv(s.shared)
  {
  }

  lemma LostToOlderKept(s: System, e: Event, c: ChanId)
    requires Inv(s) && History(s) && Current(s) && Step(s, e).Some?
    requires e == OnBound ==> s.shared.conn.None?
    requires c < |s.chans| && Step(s, e).value.chans[c].lost.Some?
    ensures c < |Step(s, e).value.chans| && LostTo(Step(s, e).value, c)
  {
    hide Step, Inv;
    var s' := Step(s, e).value;
    StepGrows(s, e);
    NewChan(s, e);
    LossOfStep(s, e, c);
    ConsistentState(s);
    assert forall d | 0 <= d < |s.chans| :: s'.chans[d].role == s.chans[d].role;
    hide Grows;
    if s.chans[c].lost == s'.chans[c].lost {
      assert LostTo(s, c);
    } else if e.OnGiveUp? {
      assert WellEnrolled(s, e.ch);
    }
  }

  lemma CurrentKept(s: System, e: Event)
    requires Inv(s) && History(s) && Current(s) && Step(s, e).Some?
    requires e == OnBound ==> s.shared.conn.None?
    ensures Current(Step(s, e).value)
  {
    var s' := Step(s, e).value;
    WaitsOnCurrentKept(s, e);
    StepGrows(s, e);
    NewChan(s, e);
    hide Step, Inv, History, WaitsOnCurrent, LostTo;
    forall c | 0 <= c < |s'.chans| && s'.chans[c].lost.Some? ensures LostTo(s', c) {
      assert c < |s.chans|;
      LostToOlderKept(s, e, c);
    }
  }

  /** The pending table after a step. */
  lemma TableOfStep(s: System, e: Event)
    requires Step(s, e).Some?
    ensures var s' := Step(s, e).value;
            && (forall n | n in s'.shared.pending ::
                  (n in s.shared.pending && s'.shared.pending[n] == s.shared.pending[n])
                  || (Enrols(s, e) && s'.shared.pending[n] == |s.chans|))
            && (e.OnClose? ==> s'.shared.pending == map[])
            && (!e.OnClose? && !e.OnBound? ==> s'.shared.conn == s.shared.conn && s'.shared.done == s.shared.done)
            && (e.OnBound? ==> s'.shared.pending == s.shared.pending)
  {
    hide ClosingTasks;
  }

  lemma {:induction false} RunCurrent(events: seq<Event>)
    requires Run(events).Some? && NoOverlap(events)
    ensures Inv(Run(events).value) && History(Run(events).value) && Current(Run(events).value)
  {
    hide Step, Inv, History, Current;
    RunHistory(events);
    if events == [] {
      StartCurrent();
    } else {
      var init := events[..|events| - 1];
      RunCurrent(init);
      CurrentKept(Run(init).value, events[|events| - 1]);
    }
  }

  lemma StartCurrent()
    ensures Current(START)
  {
  }

  /** One connection at a time: who waits was enrolled on the current connection, and waits on its done channel. */
  lemma WaitersAreCurrent(events: seq<Event>, n: uint32)
    requires Run(events).Some? && NoOverlap(events) && n in Run(events).value.shared.pending
    ensures var s := Run(events).value;
            var c := s.shared.pending[n];
            && IsRequest(s, c) && s.chans[c].role.sequence == n
            && s.shared.conn == Some(s.chans[c].role.conn) && s.shared.done == s.chans[c].role.done
  {
    RunCurrent(events);
    var s := Run(events).value;
    assert Holder(s, InTable(n)) == Some(s.shared.pending[n]);
  }

  lemma AnswerKeptOrNew(s: System, e: Event, c: ChanId)
    requires Inv(s) && Step(s, e).Some?
    requires c < |Step(s, e).value.chans| && Step(s, e).value.chans[c].answer.Some?
    ensures var s' := Step(s, e).value;
            && c < |s.chans| && s'.chans[c].role == s.chans[c].role
            && (s'.chans[c].answer == s.chans[c].answer
                || (e.OnReply? && Matched(s, e.pdu) && s.shared.pending[e.pdu.sequenceNumber] == c
                    && s'.chans[c].answer == Some(Answer(e.pdu, e.from, s.time))))
  {
    NewChan(s, e);
    StepGrows(s, e);
    assert c < |s.chans|;
    AnswerOfStep(s, e, c);
    hide Step, Inv, Matched;
  }

  lemma AnsweredIsRequest(events: seq<Event>, c: ChanId)
    requires Run(events).Some? && c < |Run(events).value.chans| && Run(events).value.chans[c].answer.Some?
    ensures Run(events).value.chans[c].role.ReplyChan?
  {
    RunKeepsInv(events);
    assert ChanInv(Run(events).value.chans[c]);
  }

  /** A reply reached the request while the request's connection was the current one. */
  lemma {:induction false} AnsweredWhileCurrent(events: seq<Event>, c: ChanId)
    requires Run(events).Some? && NoOverlap(events)
    requires c < |Run(events).value.chans| && Run(events).value.chans[c].answer.Some?
    ensures var chan := Run(events).value.chans[c];
            && chan.role.ReplyChan?
            && chan.answer.value.at < |events|
            && Run(events[..chan.answer.value.at]).Some?
            && Run(events[..chan.answer.value.at]).value.shared.conn == Some(chan.role.conn)
    decreases |events|
  {
    assert events != [];
    var init, e := events[..|events| - 1], events[|events| - 1];
    hide Step, Inv, Matched;
    AnsweredIsRequest(events, c);
    RunTime(init);
    RunKeepsInv(init);
    var s := Run(init).value;
    AnswerKeptOrNew(s, e, c);
    if s.chans[c].answer == Run(events).value.chans[c].answer {
      AnsweredWhileCurrent(init, c);
      assert events[..s.chans[c].answer.value.at] == init[..s.chans[c].answer.value.at];
    } else {
      WaitersAreCurrent(init, e.pdu.sequenceNumber);
    }
  }

  /**
   One connection at a time: a reply comes from the connection its request was sent on exactly
   when the read loop that brought it was that of the current connection at that moment.
   */
  lemma ReplyFromOwnConnection(events: seq<Event>, c: ChanId)
    requires Run(events).Some? && NoOverlap(events)
    requires c < |Run(events).value.chans| && Run(events).value.chans[c].answer.Some?
    ensures var chan := Run(events).value.chans[c];
            && chan.role.ReplyChan? && chan.answer.value.at < |events| && Run(events[..chan.answer.value.at]).Some?
            && (chan.answer.value.from == chan.role.conn <==>
                Run(events[..chan.answer.value.at]).value.shared.conn == Some(chan.answer.value.from))
  {
    AnsweredWhileCurrent(events, c);
  }

  /**
   What a PDU off a connection does to the session. deliver_sm (0x05), unbind (0x06) and enquire_link
   (0x15) leave everything as it was, whatever their number is, and so does a number nobody waits
   for. Any other command takes its number out of the table and owes a send to the channel there.
   */
  lemma ArrivalOrReply(s: System, from: ConnId, pdu: PDU)
    requires from < |s.draws|
    ensures pdu.commandID in {0x05, 0x06, 0x15} || pdu.sequenceNumber !in s.shared.pending ==>
              Step(s, OnReply(from, pdu)) == Some(s.(time := s.time + 1))
    ensures pdu.commandID !in {0x05, 0x06, 0x15} && pdu.sequenceNumber in s.shared.pending && Inv(s) ==>
              var c := s.shared.pending[pdu.sequenceNumber];
              && c < |s.chans|
              && Step(s, OnReply(from, pdu)) ==
                   Some(s.(shared := s.shared.(pending := s.shared.pending - {pdu.sequenceNumber}),
                           chans := s.chans[c := s.chans[c].(answer := Some(Answer(pdu, from, s.time)))],
                           tasks := s.tasks + [SendReply(c)], time := s.time + 1))
  {
    if Inv(s) { TableKnown(s); }
    hide Inv;
  }

  /** So no request is ever answered by a deliver_sm, an unbind or an enquire_link. */
  lemma {:induction false} ArrivalsAnswerNobody(events: seq<Event>, c: ChanId)
    requires Run(events).Some? && c < |Run(events).value.chans|
    ensures var answer := Run(events).value.chans[c].answer;
            answer.Some? ==> answer.value.pdu.commandID !in {0x05, 0x06, 0x15}
    decreases |events|
  {
    hide Step, Inv;
    assert events != [] by { EmptyRun(); }
    var init, e := events[..|events| - 1], events[|events| - 1];
    var s := Run(init).value;
    RunKeepsInv(init);
    if c < |s.chans| {
      ArrivalsAnswerNobody(init, c);
      AnswerOfStep(s, e, c);
    } else {
      NewChan(s, e);
    }
  }

  /** A reply with the number of a request that is still in the table is handed to that request. */
  lemma ReplyReachesWaiter(events: seq<Event>, from: ConnId, pdu: PDU)
    requires Run(events).Some? && from < |Run(events).value.draws|
    requires pdu.sequenceNumber in Run(events).value.shared.pending && pdu.commandID !in {0x05, 0x06, 0x15}
    ensures var s := Run(events).value;
            var c := s.shared.pending[pdu.sequenceNumber];
            var s' := Step(s, OnReply(from, pdu));
            && IsRequest(s, c) && s.chans[c].role.sequence == pdu.sequenceNumber && s.chans[c].sends == 0
            && s'.Some? && pdu.sequenceNumber !in s'.value.shared.pending
            && |s'.value.tasks| == |s.tasks| + 1 && s'.value.tasks[|s.tasks|] == SendReply(c)
            && s'.value.chans[c].answer == Some(Answer(pdu, from, s.time))
            && RunTask(s'.value, |s.tasks|).chans[c].sends == 1
  {
    RunKeepsInv(events);
    TableKnown(Run(events).value);
  }

  // ------------------------------------------------------------- who is woken

  /** The request still waits, and neither its own channel nor the done channel it waits on was closed. */
  ghost predicate Stuck(s: System, c: ChanId) {
    && Waits(s, c) && s.chans[c].closes == 0
    && (s.chans[c].role.done.Some? ==>
         IsDone(s, s.chans[c].role.done.value) && s.chans[s.chans[c].role.done.value].closes == 0)
  }

  /** Another request took its entry away, and an overlapping Connect its done channel. */
  ghost predicate Abandoned(s: System, c: ChanId) {
    && Waits(s, c) && s.chans[c].lost.Some? && (s.chans[c].lost.value.RemovedBy? || s.chans[c].lost.value.Overwritten?)
    && s.chans[c].role.done.Some? && IsDone(s, s.chans[c].role.done.value)
    && s.chans[s.chans[c].role.done.value].lost == Some(Superseded)
  }

  lemma SettledAtRest(s: System, c: ChanId)
    requires Inv(s) && s.shared.conn.None? && s.tasks == [] && c < |s.chans|
    ensures Settled(s.chans[c]) && ChanInv(s.chans[c])
  {
    assert forall p :: Holder(s, p).None?;
    assert !Settled(s.chans[c]) ==> exists p :: Holder(s, p) == Some(c);
  }

  /** What a waiting request can have lost, and its done channel. */
  lemma WaiterLosses(s: System, c: ChanId)
    requires History(s) && Waits(s, c)
    ensures s.chans[c].role.done.Some? && IsDone(s, s.chans[c].role.done.value)
    ensures s.chans[c].lost.Some? ==> s.chans[c].lost.value.RemovedBy? || s.chans[c].lost.value.Overwritten?
    ensures s.chans[s.chans[c].role.done.value].lost.Some? ==>
              s.chans[s.chans[c].role.done.value].lost == Some(Superseded)
  {
    hide Numbering, Times;
    assert WellEnrolled(s, c);
    var d := s.chans[c].role.done.value;
    assert s.chans[c].lost.Some? ==> Explained(s, c);
    assert s.chans[d].lost.Some? ==> Explained(s, d);
  }

  /** Disconnected with nothing left to do, a request is stuck exactly when it was abandoned. */
  lemma StuckIffAbandoned(events: seq<Event>, c: ChanId)
    requires Run(events).Some? && Run(events).value.shared.conn.None? && Run(events).value.tasks == []
    ensures Stuck(Run(events).value, c) <==> Abandoned(Run(events).value, c)
  {
    RunHistory(events);
    hide Run, Inv, History;
    var s := Run(events).value;
    if Waits(s, c) {
      WaiterLosses(s, c);
      SettledAtRest(s, c);
      SettledAtRest(s, s.chans[c].role.done.value);
    }
  }

  /** With one Connect at a time nobody is: every request ends, or its channel or its done channel is closed. */
  lemma NobodyLeftWaiting(events: seq<Event>, c: ChanId)
    requires Run(events).Some? && NoOverlap(events)
    requires Run(events).value.shared.conn.None? && Run(events).value.tasks == []
    ensures !Stuck(Run(events).value, c)
  {
    RunCurrent(events);
    StuckIffAbandoned(events, c);
    var s := Run(events).value;
    forall d | 0 <= d < |s.chans| ensures s.chans[d].lost != Some(Superseded) {
      if s.chans[d].lost.Some? { assert LostTo(s, d); }
    }
  }

  // ------------------------------------------------- who takes an entry away

  /** Request d gives up at event i, while the table holds c under d's number. */
  ghost predicate GivesUpOver(events: seq<Event>, i: nat, d: ChanId, c: ChanId) {
    && i < |events| && events[i] == OnGiveUp(d) && Run(events[..i]).Some?
    && var s := Run(events[..i]).value;
       IsRequest(s, d) && At(s.shared.pending, s.chans[d].role.sequence) == Some(c)
  }

  /** At event i the request that becomes d is enrolled, while the table holds c under its number. */
  ghost predicate EnrolsOver(events: seq<Event>, i: nat, d: ChanId, c: ChanId) {
    && i < |events| && events[i].OnRequest? && Run(events[..i]).Some?
    && var s := Run(events[..i]).value;
       && s.shared.conn.Some? && |s.chans| == d && events[i].ticket < |s.tickets|
       && At(s.shared.pending, NumberOf(s.tickets[events[i].ticket])) == Some(c)
  }

  /** The entry of a request goes to another that gives up exactly when that happens while it is there. */
  lemma RemovedExactly(events: seq<Event>, c: ChanId, d: ChanId)
    requires Run(events).Some? && c < |Run(events).value.chans|
    ensures Run(events).value.chans[c].lost == Some(RemovedBy(d)) <==>
            d != c && exists i: nat :: GivesUpOver(events, i, d, c)
    ensures Run(events).value.chans[c].lost == Some(Withdrawn) <==> exists i: nat :: GivesUpOver(events, i, c, c)
  {
    LostExactly(events, c, RemovedBy(d));
    LostExactly(events, c, Withdrawn);
    hide Run, Step;
    forall i: nat
      ensures LosesAt(events, i, c, RemovedBy(d)) <==> d != c && GivesUpOver(events, i, d, c)
      ensures LosesAt(events, i, c, Withdrawn) <==> GivesUpOver(events, i, c, c)
    {
    }
  }

  /** And to a new request exactly when that is enrolled while it is there. */
  lemma OverwrittenExactly(events: seq<Event>, c: ChanId, d: ChanId)
    requires Run(events).Some? && c < |Run(events).value.chans|
    ensures Run(events).value.chans[c].lost == Some(Overwritten(d)) <==> exists i: nat :: EnrolsOver(events, i, d, c)
  {
    LostExactly(events, c, Overwritten(d));
    hide Run, Step;
    forall i: nat ensures LosesAt(events, i, c, Overwritten(d)) <==> EnrolsOver(events, i, d, c) {
    }
  }

  /**
   One Connect at a time, and numbers neither carried over to another connection nor wrapped
   around: a request that did not give up itself loses its entry only to a request of an
   earlier connection that gave up while the entry was there.
   */
  lemma LostOnlyToOlder(events: seq<Event>, c: ChanId)
    requires Run(events).Some? && NoOverlap(events) && IsRequest(Run(events).value, c)
    requires OwnNumbers(Run(events).value, Run(events).value.chans[c].role.conn)
    requires var s := Run(events).value;
             s.chans[c].role.conn < |s.draws| ==> s.draws[s.chans[c].role.conn] < 0x1_0000_0000
    requires Run(events).value.chans[c].lost.Some?
    ensures var s := Run(events).value;
            match s.chans[c].lost.value
            case Withdrawn => s.chans[c].ended == Some(GaveUp)
            case RemovedBy(d) =>
              && IsRequest(s, d) && s.chans[d].role.conn < s.chans[c].role.conn
              && s.chans[d].role.sequence == s.chans[c].role.sequence && s.chans[d].ended == Some(GaveUp)
              && exists i: nat :: GivesUpOver(events, i, d, c)
            case _ => false
  {
    RunCurrent(events);
    var s := Run(events).value;
    assert LostTo(s, c) && Explained(s, c) && WellEnrolled(s, c);
    match s.chans[c].lost.value
    case RemovedBy(d) =>
      RemovedExactly(events, c, d);
      if s.chans[d].role.conn == s.chans[c].role.conn {
        NumbersDiffer(events, s.chans[c].role.conn, c, d);
      }
    case Overwritten(d) => NumbersDiffer(events, s.chans[c].role.conn, c, d);
    case _ =>
  }

  /** A longer run has all that a shorter one had. */
  lemma {:induction false} RunExtends(events: seq<Event>, b: nat)
    requires Run(events).Some? && b <= |events|
    ensures Run(events[..b]).Some?
    ensures Grows(Run(events[..b]).value, Run(events).value)
    ensures |Run(events[..b]).value.draws| <= |Run(events).value.draws|
    decreases |events|
  {
    hide Step;
    if b == |events| {
      assert events[..b] == events;
    } else {
      var init, e := events[..|events| - 1], events[|events| - 1];
      assert events[..b] == init[..b];
      RunExtends(init, b);
      StepGrows(Run(init).value, e);
      TicketsOfStep(Run(init).value, e);
    }
  }

  /** Whoever is enrolled from event b on is enrolled on no earlier connection than the newest one there. */
  lemma {:induction false} EnrolledLater(events: seq<Event>, b: nat, c: ChanId)
    requires Run(events).Some? && b <= |events|
    requires IsRequest(Run(events).value, c) && Run(events[..b]).Some? && c >= |Run(events[..b]).value.chans|
    ensures Run(events).value.chans[c].role.conn + 1 >= |Run(events[..b]).value.draws|
    decreases |events|
  {
    assert events[..|events|] == events;
    hide Step, Inv, Requests, Times, Losses;
    if b < |events| {
      var init, e := events[..|events| - 1], events[|events| - 1];
      assert events[..b] == init[..b];
      RunExtends(init, b);
      RunHistory(init);
      var s := Run(init).value;
      NewChan(s, e);
      StepGrows(s, e);
      assert Step(s, e) == Run(events);
      hide Run;
      if c < |s.chans| { EnrolledLater(init, b, c); }
    }
  }

  /** Every request there was has ended. */
  predicate AllEnded(s: System) {
    forall d | 0 <= d < |s.chans| && s.chans[d].role.ReplyChan? :: s.chans[d].ended.Some?
  }

  /** A request of the connection that event b binds is enrolled later. */
  lemma EnrolledAfter(events: seq<Event>, b: nat, c: ChanId)
    requires Run(events).Some? && IsRequest(Run(events).value, c)
    requires b <= |events| && Run(events[..b]).Some?
    requires |Run(events[..b]).value.draws| == Run(events).value.chans[c].role.conn
    ensures c >= |Run(events[..b]).value.chans|
  {
    hide Run, Step, Inv, Numbering, Times, Losses;
    RunExtends(events, b);
    RunHistory(events[..b]);
    assert c < |Run(events[..b]).value.chans| ==> WellEnrolled(Run(events[..b]).value, c);
  }

  /** Who gives up after everybody had ended was enrolled after that. */
  lemma GaveUpLater(events: seq<Event>, b: nat, i: nat, d: ChanId, c: ChanId)
    requires Run(events).Some? && GivesUpOver(events, i, d, c)
    requires b <= i && Run(events[..b]).Some? && AllEnded(Run(events[..b]).value)
    ensures d >= |Run(events[..b]).value.chans|
  {
    hide Inv, Numbering, Times, Losses, Requests, Step, Run;
    GivingUpWaits(events, i, d);
    RunExtends(events[..i], b);
    assert events[..i][..b] == events[..b];
  }

  lemma GivingUpWaits(events: seq<Event>, i: nat, d: ChanId)
    requires Run(events).Some? && i < |events| && events[i] == OnGiveUp(d) && Run(events[..i]).Some?
    ensures Waits(Run(events[..i]).value, d)
  {
    hide Inv;
    RunExtends(events, i + 1);
    assert events[..i + 1][..i] == events[..i];
    assert Step(Run(events[..i]).value, OnGiveUp(d)).Some?;
    hide Run;
  }

  /** A channel in the table at some event was enrolled before it. */
  lemma TakenAfter(events: seq<Event>, b: nat, i: nat, d: ChanId, c: ChanId)
    requires Run(events).Some? && GivesUpOver(events, i, d, c)
    requires b <= |events| && Run(events[..b]).Some? && c >= |Run(events[..b]).value.chans|
    ensures i > b
  {
    assert i <= b ==> events[..b][..i] == events[..i];
    hide Step, Run, Inv, Numbering, Times, Losses, Requests;
    if i <= b { RunExtends(events[..b], i); }
    RunKeepsInv(events[..i]);
    TableKnown(Run(events[..i]).value);
  }

  /** Binding adds a connection and its done channel. */
  lemma BoundAdds(events: seq<Event>, b: nat)
    requires Run(events).Some? && b < |events| && events[b] == OnBound && Run(events[..b]).Some?
    ensures Run(events[..b + 1]).Some?
    ensures var s, s' := Run(events[..b]).value, Run(events[..b + 1]).value;
            && |s'.draws| == |s.draws| + 1 && |s'.chans| == |s.chans| + 1 && !IsRequest(s', |s.chans|)
  {
    hide Inv;
    RunExtends(events, b + 1);
    assert events[..b + 1][..b] == events[..b];
    NewChan(Run(events[..b]).value, OnBound);
  }

  /**
   If every request had ended when the connection of a request was bound, by event b, then none of
   an earlier connection took its entry.
   */
  lemma OlderTakesNothing(events: seq<Event>, b: nat, c: ChanId, d: ChanId)
    requires Run(events).Some? && IsRequest(Run(events).value, c)
    requires b < |events| && events[b] == OnBound && Run(events[..b]).Some? && AllEnded(Run(events[..b]).value)
    requires |Run(events[..b]).value.draws| == Run(events).value.chans[c].role.conn
    requires Run(events).value.chans[c].lost == Some(RemovedBy(d)) && IsRequest(Run(events).value, d)
    ensures Run(events).value.chans[d].role.conn >= Run(events).value.chans[c].role.conn
  {
    hide Step, Run, Inv, History, GivesUpOver, AllEnded;
    RemovedExactly(events, c, d);
    var i: nat :| GivesUpOver(events, i, d, c);
    EnrolledAfter(events, b, c);
    TakenAfter(events, b, i, d, c);
    GaveUpLater(events, b, i, d, c);
    BoundAdds(events, b);
    RunExtends(events, b + 1);
    EnrolledLater(events, b + 1, d);
  }

  /**
   One Connect at a time, and numbers neither carried over nor wrapped around: if every request of
   the earlier connections had ended when its connection was bound, a request keeps its entry until
   it is answered or closed, or gives up itself.
   */
  lemma QuietReconnectLosesNothing(events: seq<Event>, b: nat, c: ChanId)
    requires Run(events).Some? && NoOverlap(events) && IsRequest(Run(events).value, c)
    requires OwnNumbers(Run(events).value, Run(events).value.chans[c].role.conn)
    requires var s := Run(events).value;
             s.chans[c].role.conn < |s.draws| ==> s.draws[s.chans[c].role.conn] < 0x1_0000_0000
    requires b < |events| && events[b] == OnBound && Run(events[..b]).Some? && AllEnded(Run(events[..b]).value)
    requires |Run(events[..b]).value.draws| == Run(events).value.chans[c].role.conn
    ensures Run(events).value.chans[c].lost in {None, Some(Withdrawn)}
  {
    hide Step, Run, Inv, History, AllEnded, NoOverlap, OwnNumbers;
    if Run(events).value.chans[c].lost.Some? {
      LostOnlyToOlder(events, c);
      match Run(events).value.chans[c].lost.value
      case RemovedBy(d) => OlderTakesNothing(events, b, c, d);
      case _ =>
    }
  }

  // ------------------------------------------------- runs where it goes wrong

  lemma OneMore(events: seq<Event>, e: Event)
    requires Run(events).Some?
    ensures Run(events + [e]) == Step(Run(events).value, e)
    ensures NoOverlap(events + [e]) <==> NoOverlap(events) && (e == OnBound ==> Run(events).value.shared.conn.None?)
  {
    assert (events + [e])[..|events|] == events;
  }

  /** Closed, connected again, and a request on the new connection. */
  lemma Reconnected() returns (events: seq<Event>)
    ensures Run(events).Some? && NoOverlap(events)
    ensures var s := Run(events).value;
            && s.shared == Shared(Some(1), Bound, Some(1), map[2 := 2]) && |s.draws| == 2 && s.time == 5
            && s.chans == [OpenDone(0), OpenDone(2), Waiting(0, 1, 1, 4)]
  {
    hide ClosingTasks, Run, NoOverlap;
    EmptyRun();
    events := [];
    OneMore(events, OnBound);
    events := events + [OnBound];
    OneMore(events, OnClose);
    events := events + [OnClose];
    OneMore(events, OnBound);
    events := events + [OnBound];
    assert Run(events).value.draws == [1, 1] && Run(events).value.shared == Shared(Some(1), Bound, Some(1), map[]);
    OneMore(events, OnDraw(1));
    events := events + [OnDraw(1)];
    assert Run(events).value.tickets == [Ticket(1, 2, false)] && Run(events).value.chans == [OpenDone(0), OpenDone(2)];
    OneMore(events, OnRequest(0));
    events := events + [OnRequest(0)];
  }

  /** A read loop that outlives its connection hands the next connection's request a reply meant for nobody there. */
  lemma LateReadLoop(pdu: PDU) returns (events: seq<Event>)
    requires pdu.sequenceNumber == 2 && !HandledOnArrival(pdu.commandID)
    ensures Run(events).Some? && NoOverlap(events)
    ensures var s := Run(events).value;
            && IsRequest(s, 2) && s.chans[2].role.conn == 1
            && s.chans[2].answer == Some(Answer(pdu, 0, 5))
  {
    hide ClosingTasks, Run, NoOverlap;
    events := Reconnected();
    OneMore(events, OnReply(0, pdu));
    events := events + [OnReply(0, pdu)];
  }

  lemma EmptyRun()
    ensures Run([]) == Some(START) && NoOverlap([])
  {
  }

  function Waiting(ticket: nat, conn: ConnId, done: ChanId, born: nat): Chan {
    Chan(ReplyChan(ticket, 2, conn, Some(done)), born, None, 0, 0, None, None)
  }

  function OpenDone(born: nat): Chan {
    Chan(DoneChan, born, None, 0, 0, None, None)
  }

  /** One connection, and one request on it. */
  const ONE_WAITING := System(Shared(Some(0), Bound, Some(0), map[2 := 1]), [OpenDone(0), Waiting(0, 0, 0, 2)], [],
                             [2], [Ticket(0, 2, true)], 3)

  lemma FirstRequest() returns (events: seq<Event>)
    ensures Run(events) == Some(ONE_WAITING) && NoOverlap(events)
  {
    hide ClosingTasks, Run, NoOverlap;
    EmptyRun();
    events := [];
    OneMore(events, OnBound);
    events := events + [OnBound];
    OneMore(events, OnDraw(0));
    events := events + [OnDraw(0)];
    OneMore(events, OnRequest(0));
    events := events + [OnRequest(0)];
    var s := Run(events).value;
    assert s.tickets == [Ticket(0, 2, true)] && s.draws == [2] && s.shared.pending == map[2 := 1];
    assert s.chans == [OpenDone(0), Waiting(0, 0, 0, 2)];
  }

  /** Closed and connected again, with a request of the same number on the new connection. */
  lemma SecondRequest() returns (events: seq<Event>)
    ensures Run(events).Some? && NoOverlap(events)
    ensures var s := Run(events).value;
            && s.shared == Shared(Some(1), Bound, Some(2), map[2 := 3])
            && s.chans == [OpenDone(0), Waiting(0, 0, 0, 2), OpenDone(4), Waiting(1, 1, 2, 6)]
            && |s.draws| == 2
  {
    hide ClosingTasks, Run, NoOverlap;
    events := FirstRequest();
    OneMore(events, OnClose);
    events := events + [OnClose];
    OneMore(events, OnBound);
    events := events + [OnBound];
    OneMore(events, OnDraw(1));
    events := events + [OnDraw(1)];
    var s := Run(events).value;
    assert s.tickets == [Ticket(0, 2, true), Ticket(1, 2, false)] && s.draws == [2, 2] && s.shared.pending == map[];
    assert s.chans == [OpenDone(0), Waiting(0, 0, 0, 2), OpenDone(4)];
    OneMore(events, OnRequest(1));
    events := events + [OnRequest(1)];
  }

  /**
   A request of a closed connection wakes late and removes the entry of a new one with the
   same number: the reply to that is thrown away while it still waits.
   */
  lemma LostReply(pdu: PDU) returns (events: seq<Event>)
    requires pdu.sequenceNumber == 2 && !HandledOnArrival(pdu.commandID)
    ensures Run(events).Some? && NoOverlap(events)
    ensures events != [] && events[|events| - 1] == OnReply(1, pdu)
    ensures var s := Run(events).value;
            && Waits(s, 3) && s.chans[3].role == ReplyChan(1, 2, 1, Some(2)) && s.shared.conn == Some(1)
            && s.chans[3].lost == Some(RemovedBy(1)) && s.chans[3].answer.None?
            && s.chans[1].role == ReplyChan(0, 2, 0, Some(0)) && s.chans[1].ended == Some(GaveUp)
  {
    hide ClosingTasks, Run, NoOverlap;
    events := SecondRequest();
    OneMore(events, OnGiveUp(1));
    events := events + [OnGiveUp(1)];
    OneMore(events, OnReply(1, pdu));
    events := events + [OnReply(1, pdu)];
  }

  /** Two numbers drawn, one from the closed connection and one from the open one. */
  lemma TwoDraws() returns (events: seq<Event>)
    ensures Run(events).Some? && NoOverlap(events)
    ensures var s := Run(events).value;
            && s.shared == Shared(Some(1), Bound, Some(1), map[]) && s.chans == [OpenDone(0), OpenDone(3)]
            && s.draws == [2, 2] && s.tickets == [Ticket(0, 2, false), Ticket(1, 2, false)]
  {
    hide ClosingTasks, Run, NoOverlap;
    EmptyRun();
    events := [];
    OneMore(events, OnBound);
    events := events + [OnBound];
    OneMore(events, OnDraw(0));
    events := events + [OnDraw(0)];
    OneMore(events, OnClose);
    events := events + [OnClose];
    OneMore(events, OnBound);
    events := events + [OnBound];
    assert Run(events).value.draws == [2, 1] && Run(events).value.tickets == [Ticket(0, 2, false)];
    OneMore(events, OnDraw(1));
    events := events + [OnDraw(1)];
  }

  /** A number drawn before a reconnect and used after it meets the same number of the new connection. */
  lemma CarriedNumber() returns (events: seq<Event>)
    ensures Run(events).Some? && NoOverlap(events)
    ensures var s := Run(events).value;
            && |s.draws| == 2 && s.draws[1] < 0x1_0000_0000 && |s.chans| == 4 && !OwnNumbers(s, 1)
            && s.chans[2].role == ReplyChan(0, 2, 1, Some(1)) && s.chans[3].role == ReplyChan(1, 2, 1, Some(1))
            && s.chans[2].lost == Some(Overwritten(3))
  {
    hide ClosingTasks, Run, NoOverlap;
    events := TwoDraws();
    OneMore(events, OnRequest(0));
    events := events + [OnRequest(0)];
    var s := Run(events).value;
    assert s.shared.pending == map[2 := 2] && s.chans[2] == Waiting(0, 1, 1, s.time - 1) && |s.chans| == 3;
    OneMore(events, OnRequest(1));
    events := events + [OnRequest(1)];
    assert IsRequest(Run(events).value, 2);
  }

  const OVERLAPPED := System(Shared(Some(1), Bound, Some(2), map[2 := 3]),
                             [OpenDone(0).(lost := Some(Superseded)),
                               Waiting(0, 0, 0, 2).(lost := Some(Overwritten(3))),
                              OpenDone(3), Waiting(1, 1, 2, 5)], [],
                             [2, 2], [Ticket(0, 2, true), Ticket(1, 2, true)], 6)

  lemma OverlappingRequests() returns (events: seq<Event>)
    ensures Run(events) == Some(OVERLAPPED)
  {
    hide ClosingTasks, Run, NoOverlap;
    events := FirstRequest();
    OneMore(events, OnBound);
    events := events + [OnBound];
    OneMore(events, OnDraw(1));
    events := events + [OnDraw(1)];
    var s := Run(events).value;
    assert s.tickets == [Ticket(0, 2, true), Ticket(1, 2, false)] && s.draws == [2, 2];
    assert s.chans == [OpenDone(0).(lost := Some(Superseded)), Waiting(0, 0, 0, 2), OpenDone(3)];
    OneMore(events, OnRequest(1));
    events := events + [OnRequest(1)];
    var t := Run(events).value;
    assert t.chans == OVERLAPPED.chans && t.tickets == OVERLAPPED.tickets && t.shared.pending == map[2 := 3];
  }

  /** Two overlapping Connects and two requests with one number: the first is never woken. */
  lemma OverlapStrands() returns (events: seq<Event>)
    ensures Run(events).Some? && Run(events).value.shared.conn.None? && Run(events).value.tasks == []
    ensures Stuck(Run(events).value, 1)
  {
    hide Run, NoOverlap, Listing;
    events := OverlappingRequests();
    OnlyListing(OVERLAPPED.shared.pending.Keys, 2);
    assert ClosingTasks(OVERLAPPED.shared) == [CloseOnly(2), CloseOnly(3)];
    OneMore(events, OnClose);
    events := events + [OnClose];
    assert Run(events).value.tasks == [CloseOnly(2), CloseOnly(3)];
    hide ClosingTasks;
    OneMore(events, OnTask(0));
    events := events + [OnTask(0)];
    assert Run(events).value.tasks == [CloseOnly(3)];
    OneMore(events, OnTask(0));
    events := events + [OnTask(0)];
  }

  lemma OnlyListing(keys: set<uint32>, n: uint32)
    requires keys == {n}
    ensures Listing(keys) == [n]
  {
    var l := Listing(keys);
    EnumerationMultiset(l, keys);
    assert |multiset(l)| == |l| && multiset(keys) == multiset{n};
    assert l[0] in multiset(l);
  }
}
