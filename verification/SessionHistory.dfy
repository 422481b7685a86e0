/**
 What a run of the session says about its requests: where numbers come from,
 which event brought a reply, and how an entry can be lost.
 */
module SessionHistory {
  import opened Bytes
  import opened Session
  import opened SessionRuns

  // ------------------------------------------------------------- bookkeeping

  predicate IsRequest(s: System, c: ChanId) {
    c < |s.chans| && s.chans[c].role.ReplyChan?
  }

  predicate IsDone(s: System, c: ChanId) {
    c < |s.chans| && s.chans[c].role.DoneChan?
  }

  /** Each connection hands out its numbers in turn, and the newest connection is the current one. */
  predicate Numbering(s: System) {
    && (s.shared.conn.Some? ==> s.shared.conn.value + 1 == |s.draws|)
    && (forall k | 0 <= k < |s.draws| :: s.draws[k] >= 1)
    && (forall t | 0 <= t < |s.tickets| ::
         s.tickets[t].conn < |s.draws| && 1 < s.tickets[t].ord <= s.draws[s.tickets[t].conn])
    && (forall t, u | 0 <= t < u < |s.tickets| && s.tickets[t].conn == s.tickets[u].conn ::
         s.tickets[t].ord < s.tickets[u].ord)
  }

  /** What a request knows of its number, its connection and the done channel it waits on. */
  predicate WellEnrolled(s: System, c: ChanId)
    requires IsRequest(s, c)
  {
    var r := s.chans[c].role;
    && r.ticket < |s.tickets| && s.tickets[r.ticket].used && r.sequence == NumberOf(s.tickets[r.ticket])
    && r.conn < |s.draws|
    && r.done.Some? && IsDone(s, r.done.value)
  }

  ghost predicate Requests(s: System) {
    && (forall c: ChanId | IsRequest(s, c) :: WellEnrolled(s, c))
    && (forall c: ChanId, d: ChanId | IsRequest(s, c) && IsRequest(s, d)
         && s.chans[c].role.ticket == s.chans[d].role.ticket :: c == d)
    && (s.shared.done.Some? ==> IsDone(s, s.shared.done.value))
  }

  predicate Times(s: System) {
    && (forall c | 0 <= c < |s.chans| :: s.chans[c].born < s.time)
    && (forall c | 0 <= c < |s.chans| && s.chans[c].answer.Some? ::
          s.chans[c].born < s.chans[c].answer.value.at < s.time && s.chans[c].answer.value.from < |s.draws|)
    && (forall c, d | 0 <= c < d < |s.chans| && s.chans[c].answer.Some? && s.chans[d].answer.Some? ::
          s.chans[c].answer.value.at != s.chans[d].answer.value.at)
  }

  /** Who is to blame for a loss. */
  predicate Explained(s: System, c: ChanId)
    requires c < |s.chans| && s.chans[c].lost.Some?
  {
    match s.chans[c].lost.value
    case Superseded => IsDone(s, c)
    case Withdrawn => IsRequest(s, c) && s.chans[c].ended == Some(GaveUp)
    case RemovedBy(d) =>
      && IsRequest(s, c) && IsRequest(s, d) && d != c
      && s.chans[d].role.sequence == s.chans[c].role.sequence && s.chans[d].ended == Some(GaveUp)
    case Overwritten(d) =>
      && IsRequest(s, c) && IsRequest(s, d) && c < d
      && s.chans[d].role.sequence == s.chans[c].role.sequence
  }

  predicate Losses(s: System) {
    && (forall c | 0 <= c < |s.chans| && s.chans[c].lost.Some? :: Explained(s, c))
    && (forall c | 0 <= c < |s.chans| && s.chans[c].ended == Some(GotReply) :: s.chans[c].sends > 0)
  }

  ghost predicate History(s: System) {
    Numbering(s) && Requests(s) && Times(s) && Losses(s)
  }

  // ------------------------------------------------------------ preservation

  /** Channels keep their role and birth; an answer, an ending and a loss stay once given. */
  predicate Grows(s: System, s': System) {
    && |s.chans| <= |s'.chans|
    && forall c | 0 <= c < |s.chans| ::
         && s'.chans[c].role == s.chans[c].role && s'.chans[c].born == s.chans[c].born
         && s'.chans[c].sends >= s.chans[c].sends
         && (s.chans[c].ended.Some? ==> s'.chans[c].ended == s.chans[c].ended)
  }

  /** The pieces of a step that numbering depends on. */
  lemma SharedOfStep(s: System, e: Event)
    requires Step(s, e).Some?
    ensures var s' := Step(s, e).value;
            && (!e.OnDraw? && !e.OnBound? ==> s'.draws == s.draws)
            && (!e.OnDraw? && !e.OnRequest? ==> s'.tickets == s.tickets)
            && (!e.OnBound? && s'.shared.conn.Some? ==> s'.shared.conn == s.shared.conn)
            && (!e.OnBound? && s'.shared.done.Some? ==> s'.shared.done == s.shared.done)
            && s'.time == s.time + 1
  {
  }

  lemma StepGrows(s: System, e: Event)
    requires Step(s, e).Some?
    ensures Grows(s, Step(s, e).value)
  {
  }

  /** The request that a step enrols, if it does. */
  predicate Enrols(s: System, e: Event) {
    e.OnRequest? && s.shared.conn.Some?
  }

  lemma TableKnown(s: System)
    requires Inv(s)
    ensures forall n | n in s.shared.pending ::
              s.shared.pending[n] < |s.chans| && Suits(s, InTable(n), s.chans[s.shared.pending[n]])
    ensures s.shared.done.Some? ==> s.shared.done.value < |s.chans| && Suits(s, InDone, s.chans[s.shared.done.value])
  {
    assert forall n | n in s.shared.pending :: Holder(s, InTable(n)) == Some(s.shared.pending[n]);
    assert Holder(s, InDone) == s.shared.done;
  }

  lemma NewChan(s: System, e: Event)
    requires Step(s, e).Some?
    ensures var s' := Step(s, e).value;
            if e.OnBound? then |s'.chans| == |s.chans| + 1 && s'.chans[|s.chans|] == NewDone(s)
            else if Enrols(s, e) then
              e.ticket < |s.tickets| && |s'.chans| == |s.chans| + 1 && s'.chans[|s.chans|] == NewReply(s, e.ticket)
            else |s'.chans| == |s.chans|
  {
    hide ClosingTasks, NewReply, NewDone;
  }

  /** An answer comes from a reply event, to a channel that had none. */
  lemma AnswerOfStep(s: System, e: Event, c: ChanId)
    requires Inv(s) && Step(s, e).Some? && c < |s.chans|
    ensures var s' := Step(s, e).value;
            && c < |s'.chans|
            && (s'.chans[c].answer == s.chans[c].answer
                || (s.chans[c].answer.None? && e.OnReply? && Matched(s, e.pdu)
                     && s.shared.pending[e.pdu.sequenceNumber] == c
                    && s'.chans[c].answer == Some(Answer(e.pdu, e.from, s.time))))
  {
    TableKnown(s);
    hide ClosingTasks, Inv;
  }

  lemma LossOfStep(s: System, e: Event, c: ChanId)
    requires Inv(s) && Step(s, e).Some? && c < |s.chans|
    ensures var s' := Step(s, e).value;
            && c < |s'.chans|
            && (s'.chans[c].lost == s.chans[c].lost
                 || (s'.chans[c].lost.Some? && NewLoss(s, e, c, s'.chans[c].lost.value)))
  {
    TableKnown(s);
    hide ClosingTasks, Inv;
  }

  lemma EndingOfStep(s: System, e: Event, c: ChanId)
    requires Step(s, e).Some? && c < |s.chans|
    ensures var s' := Step(s, e).value;
            && c < |s'.chans|
            && (s'.chans[c].ended == s.chans[c].ended
                || (e == OnGiveUp(c) && s'.chans[c].ended == Some(GaveUp))
                || (e == OnReceive(c) && s'.chans[c].ended.Some?
                     && (s'.chans[c].ended == Some(GotReply) ==> s.chans[c].sends > 0)))
  {
    hide ClosingTasks;
  }

  /** The channel a step loses, and how. */
  predicate NewLoss(s: System, e: Event, c: ChanId, loss: Loss) {
    match e
    case OnBound => s.shared.done == Some(c) && loss == Superseded
    case OnRequest(t) =>
      Enrols(s, e) && t < |s.tickets| && At(s.shared.pending, NumberOf(s.tickets[t])) == Some(c)
        && loss == Overwritten(|s.chans|)
    case OnGiveUp(d) =>
      IsRequest(s, d) && At(s.shared.pending, s.chans[d].role.sequence) == Some(c)
      && loss == if c == d then Withdrawn else RemovedBy(d)
    case _ => false
  }

  lemma NumberingKept(s: System, e: Event)
    requires Numbering(s) && Step(s, e).Some?
    ensures Numbering(Step(s, e).value)
  {
    var s' := Step(s, e).value;
    SharedOfStep(s, e);
    TicketsOfStep(s, e);
    assert e.OnBound? ==> s'.shared.conn == Some(|s.draws|) && s'.draws == s.draws + [1] && s'.tickets == s.tickets;
    assert e.OnDraw? ==> e.conn < |s.draws| && s'.tickets == s.tickets + [Ticket(e.conn, s.draws[e.conn] + 1, false)]
                         && s'.draws == s.draws[e.conn := s.draws[e.conn] + 1];
    assert e.OnRequest? ==> |s'.tickets| == |s.tickets|;
    hide Step;
    assert s'.shared.conn.Some? ==> s'.shared.conn.value + 1 == |s'.draws|;
    forall t | 0 <= t < |s'.tickets|
      ensures s'.tickets[t].conn < |s'.draws| && 1 < s'.tickets[t].ord <= s'.draws[s'.tickets[t].conn]
    {
    }
  }

  lemma RequestsKept(s: System, e: Event)
    requires Inv(s) && Numbering(s) && Requests(s) && Step(s, e).Some?
    ensures Requests(Step(s, e).value)
  {
    var s' := Step(s, e).value;
    SharedOfStep(s, e);
    StepGrows(s, e);
    TicketsOfStep(s, e);
    NewChan(s, e);
    assert SharedInv(s.shared);
    assert e.OnBound? ==> s'.shared.done == Some(|s.chans|) && |s'.chans| > |s.chans|;
    assert SharedInv(s.shared);
    assert forall c | 0 <= c < |s.chans| :: s'.chans[c].role == s.chans[c].role;
    hide Step, Inv, Grows;
    forall c: ChanId | IsRequest(s', c) ensures WellEnrolled(s', c) {
      if c < |s.chans| {
        assert WellEnrolled(s, c);
      }
    }
    assert s'.shared.done.Some? ==> IsDone(s', s'.shared.done.value);
    forall c: ChanId, d: ChanId | IsRequest(s', c) && IsRequest(s', d)
        && s'.chans[c].role.ticket == s'.chans[d].role.ticket
      ensures c == d
    {
      assert c < |s.chans| ==> WellEnrolled(s, c);
      assert d < |s.chans| ==> WellEnrolled(s, d);
    }
  }

  /** Tickets are only added, or marked used; a request takes an unused one. */
  lemma TicketsOfStep(s: System, e: Event)
    requires Step(s, e).Some?
    ensures var s' := Step(s, e).value;
            && |s.tickets| <= |s'.tickets| && |s.draws| <= |s'.draws|
            && (forall t | 0 <= t < |s.tickets| ::
                  && s'.tickets[t].conn == s.tickets[t].conn && s'.tickets[t].ord == s.tickets[t].ord
                  && (s.tickets[t].used ==> s'.tickets[t].used))
            && (e.OnRequest? ==> e.ticket < |s.tickets| && !s.tickets[e.ticket].used && s'.tickets[e.ticket].used)
  {
  }

  /** The channel that a step answers, if it does. */
  predicate Answers(s: System, e: Event, c: ChanId) {
    e.OnReply? && Matched(s, e.pdu) && s.shared.pending[e.pdu.sequenceNumber] == c
  }

  /** A channel after a step: born when it was, answered as it was or just now. */
  predicate Aged(s: System, e: Event, after: Chan, c: ChanId)
    requires c < |s.chans|
  {
    && after.born == s.chans[c].born
    && (after.answer == s.chans[c].answer
        || (s.chans[c].answer.None? && Answers(s, e, c) && after.answer == Some(Answer(e.pdu, e.from, s.time))))
  }

  /** What a step does to births and answers. */
  lemma TimesOfStep(s: System, e: Event)
    requires Inv(s) && Step(s, e).Some?
    ensures var s' := Step(s, e).value;
            && s'.time == s.time + 1 && |s.draws| <= |s'.draws| && |s.chans| <= |s'.chans| <= |s.chans| + 1
            && (e.OnReply? ==> e.from < |s.draws|)
            && (|s'.chans| > |s.chans| ==> s'.chans[|s.chans|].answer.None? && s'.chans[|s.chans|].born == s.time)
            && forall c | 0 <= c < |s.chans| :: Aged(s, e, s'.chans[c], c)
  {
    var s' := Step(s, e).value;
    assert e.OnReply? ==> e.from < |s.draws|;
    hide Step, Inv, Matched;
    SharedOfStep(s, e);
    TicketsOfStep(s, e);
    StepGrows(s, e);
    NewChan(s, e);
    forall c | 0 <= c < |s.chans| ensures Aged(s, e, s'.chans[c], c) {
      AnswerOfStep(s, e, c);
    }
  }

  lemma AnswerInTime(s: System, e: Event, c: ChanId)
    requires Inv(s) && Times(s) && Step(s, e).Some? && c < |Step(s, e).value.chans|
    ensures var s' := Step(s, e).value;
            && s'.chans[c].born < s'.time
            && (s'.chans[c].answer.Some? ==>
                  s'.chans[c].born < s'.chans[c].answer.value.at < s'.time
                    && s'.chans[c].answer.value.from < |s'.draws|)
  {
    TimesOfStep(s, e);
    hide Step, Inv, Answers;
    var s' := Step(s, e).value;
    if c < |s.chans| { assert Aged(s, e, s'.chans[c], c); }
  }

  lemma AnswersApart(s: System, e: Event, c: ChanId, d: ChanId)
    requires Inv(s) && Times(s) && Step(s, e).Some? && c < d < |Step(s, e).value.chans|
    ensures var s' := Step(s, e).value;
            s'.chans[c].answer.Some? && s'.chans[d].answer.Some? ==>
              s'.chans[c].answer.value.at != s'.chans[d].answer.value.at
  {
    TimesOfStep(s, e);
    assert Answers(s, e, c) && Answers(s, e, d) ==> c == d;
    hide Step, Inv, Answers;
    var s' := Step(s, e).value;
    assert Aged(s, e, s'.chans[c], c);
    assert d < |s.chans| ==> Aged(s, e, s'.chans[d], d);
  }

  lemma TimesKept(s: System, e: Event)
    requires Inv(s) && Times(s) && Step(s, e).Some?
    ensures Times(Step(s, e).value)
  {
    hide Step, Inv;
    var s' := Step(s, e).value;
    forall c | 0 <= c < |s'.chans|
      ensures s'.chans[c].born < s'.time
      ensures s'.chans[c].answer.Some? ==>
                s'.chans[c].born < s'.chans[c].answer.value.at < s'.time && s'.chans[c].answer.value.from < |s'.draws|
    {
      AnswerInTime(s, e, c);
    }
    forall c, d | 0 <= c < d < |s'.chans| && s'.chans[c].answer.Some? && s'.chans[d].answer.Some?
      ensures s'.chans[c].answer.value.at != s'.chans[d].answer.value.at
    {
      AnswersApart(s, e, c, d);
    }
  }

  lemma GiveUpEnds(s: System, e: Event)
    requires Step(s, e).Some? && e.OnGiveUp?
    ensures IsRequest(s, e.ch) && e.ch < |Step(s, e).value.chans| && Step(s, e).value.chans[e.ch].ended == Some(GaveUp)
  {
  }

  lemma LossKept(s: System, e: Event, c: ChanId)
    requires Inv(s) && Losses(s) && Step(s, e).Some?
    requires c < |s.chans| && Step(s, e).value.chans[c].lost.Some?
    ensures c < |Step(s, e).value.chans| && Explained(Step(s, e).value, c)
  {
    hide Step, Inv;
    TableKnown(s);
    StepGrows(s, e);
    NewChan(s, e);
    LossOfStep(s, e, c);
    EndingOfStep(s, e, c);
    if e.OnGiveUp? { GiveUpEnds(s, e); }
    assert s.chans[c].lost.Some? ==> Explained(s, c);
  }

  lemma LossesKept(s: System, e: Event)
    requires Inv(s) && Losses(s) && Step(s, e).Some?
    ensures Losses(Step(s, e).value)
  {
    var s' := Step(s, e).value;
    StepGrows(s, e);
    NewChan(s, e);
    assert |s'.chans| > |s.chans| ==> s'.chans[|s.chans|].lost.None? && s'.chans[|s.chans|].ended.None?;
    hide Step, Inv, Explained, NewDone, NewReply;
    forall c | 0 <= c < |s'.chans|
      ensures s'.chans[c].lost.Some? ==> Explained(s', c)
      ensures s'.chans[c].ended == Some(GotReply) ==> s'.chans[c].sends > 0
    {
      if c < |s.chans| {
        if s'.chans[c].lost.Some? { LossKept(s, e, c); }
        EndingOfStep(s, e, c);
      }
    }
  }

  lemma HistoryKept(s: System, e: Event)
    requires Inv(s) && History(s) && Step(s, e).Some?
    ensures History(Step(s, e).value)
  {
    hide Step, Inv, Numbering, Requests, Times, Losses;
    NumberingKept(s, e);
    RequestsKept(s, e);
    TimesKept(s, e);
    LossesKept(s, e);
  }

  lemma {:induction false} RunHistory(events: seq<Event>)
    requires Run(events).Some?
    ensures Inv(Run(events).value) && History(Run(events).value)
  {
    hide Step, Inv, Numbering, Requests, Times, Losses;
    RunKeepsInv(events);
    if events == [] {
      StartHistory();
    } else {
      var init := events[..|events| - 1];
      RunHistory(init);
      HistoryKept(Run(init).value, events[|events| - 1]);
    }
  }

  lemma StartHistory()
    ensures History(START)
  {
  }

  // ---------------------------------------------------------- causes of a loss

  lemma NewLossLoses(s: System, e: Event, c: ChanId, loss: Loss)
    requires Inv(s) && Step(s, e).Some? && NewLoss(s, e, c, loss)
    ensures c < |s.chans| && s.chans[c].lost.None?
    ensures c < |Step(s, e).value.chans| && Step(s, e).value.chans[c].lost == Some(loss)
  {
    TableKnown(s);
    hide Inv, ClosingTasks;
  }

  /** What a step loses is lost for good, and nothing else is. */
  lemma LossOfStepExact(s: System, e: Event, c: ChanId, loss: Loss)
    requires Inv(s) && Step(s, e).Some?
    ensures var s' := Step(s, e).value;
            (c < |s'.chans| && s'.chans[c].lost == Some(loss)) <==>
            (c < |s.chans| && s.chans[c].lost == Some(loss)) || NewLoss(s, e, c, loss)
  {
    hide Step, Inv, NewLoss;
    var s' := Step(s, e).value;
    NewChan(s, e);
    StepGrows(s, e);
    assert |s'.chans| > |s.chans| ==> s'.chans[|s.chans|].lost.None?;
    if NewLoss(s, e, c, loss) { NewLossLoses(s, e, c, loss); }
    if c < |s.chans| {
      LossOfStep(s, e, c);
      if s'.chans[c].lost != s.chans[c].lost { NewLossLoses(s, e, c, s'.chans[c].lost.value); }
    }
  }

  /** Event i of the run takes c out of the shared state in this way. */
  ghost predicate LosesAt(events: seq<Event>, i: nat, c: ChanId, loss: Loss) {
    i < |events| && Run(events[..i]).Some? && NewLoss(Run(events[..i]).value, events[i], c, loss)
  }

  /** A channel is lost in some way exactly when some event of the run took it out in that way. */
  lemma {:induction false} LostExactly(events: seq<Event>, c: ChanId, loss: Loss)
    requires Run(events).Some?
    ensures (c < |Run(events).value.chans| && Run(events).value.chans[c].lost == Some(loss)) <==>
            exists i: nat :: LosesAt(events, i, c, loss)
    decreases |events|
  {
    hide Step, Inv, NewLoss;
    if events != [] {
      var init, e := events[..|events| - 1], events[|events| - 1];
      RunKeepsInv(init);
      LostExactly(init, c, loss);
      LossOfStepExact(Run(init).value, e, c, loss);
      assert forall i: nat | i < |init| :: init[..i] == events[..i] && init[i] == events[i];
      if i: nat :| LosesAt(init, i, c, loss) { assert LosesAt(events, i, c, loss); }
      if NewLoss(Run(init).value, e, c, loss) { assert LosesAt(events, |init|, c, loss); }
      if i: nat :| LosesAt(events, i, c, loss) {
        if i < |init| { assert LosesAt(init, i, c, loss); }
      }
    } else {
      assert Run(events) == Some(START);
    }
  }
}
