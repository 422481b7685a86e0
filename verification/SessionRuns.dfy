/**
 Every interleaving of the session's locked sections with the sends and closes
 that follow them outside the lock.

 A goroutine that took a channel out of the shared state owes it something: a
 task. Tasks run in any order, between any locked sections.
 */
module SessionRuns {
  import opened Bytes
  import opened Sorting
  import opened SmppCodec
  import opened Session

  /**
   What a channel is for: the done channel of a connection, or the reply channel of a request.
   A request knows the number it drew, the connection it was enrolled on, and the done channel
   it waits on beside its own.
   */
  datatype Role = DoneChan | ReplyChan(ticket: nat, sequence: uint32, conn: ConnId, done: Option<ChanId>)

  /** The reply meant for a channel, the connection it was read from, and the event that brought it. */
  datatype Answer = Answer(pdu: PDU, from: ConnId, at: nat)

  /** How a channel can leave the shared state with nothing sent on it and nobody to close it. */
  datatype Loss =
    | Withdrawn                // its own request gave up
    | RemovedBy(other: ChanId)    // another request that gave up removed the entry
    | Overwritten(other: ChanId)  // another request took the entry
    | Superseded               // a done channel that an overlapping Connect replaced

  /** How a request ended. */
  datatype Ending = GotReply | GotClosed | GaveUp

  datatype Chan = Chan(role: Role, born: nat, answer: Option<Answer>, sends: nat, closes: nat,
                       lost: Option<Loss>, ended: Option<Ending>)

  /** What a goroutine still owes a channel it took out of the shared state. */
  datatype Task = SendReply(ch: ChanId) | CloseAfterReply(ch: ChanId) | CloseOnly(ch: ChanId)

  /**
   A number drawn from a connection, the ord-th one; a request uses it once, on whatever
   connection is current then.
   */
  datatype Ticket = Ticket(conn: ConnId, ord: nat, used: bool)

  /** Connections are numbered as they are made; `draws` counts the numbers drawn from each, `time` the events. */
  datatype System = System(shared: Shared, chans: seq<Chan>, tasks: seq<Task>,
                           draws: seq<nat>, tickets: seq<Ticket>, time: nat)

  const START := System(INITIAL, [], [], [], [], 0)

  datatype Event =
    | OnStartConnect
    | OnConnectFailed
    | OnBound                             // the bind itself drew the first number of the connection
    | OnClose
    | OnDraw(conn: ConnId)
    | OnRequest(ticket: nat)
    | OnReceive(ch: ChanId)               // a request wakes on its own channel
    | OnGiveUp(ch: ChanId)                // on the done channel, the context or a failed write
    | OnReply(from: ConnId, pdu: PDU)     // the locked section of that connection's read loop
    | OnTask(index: nat)

  /** Connection sequence numbers wrap around in 32 bits. */
  function NumberOf(t: Ticket): uint32 {
    t.ord % 0x1_0000_0000
  }

  /** The closes a Close owes: its done channel, and one per pending entry. */
  ghost function ClosingTasks(s: Shared): seq<Task> {
    (match s.done case Some(d) => [CloseOnly(d)] case None => [])
    + PendingTasks(s.pending, Listing(s.pending.Keys))
  }

  function PendingTasks(pending: map<uint32, ChanId>, keys: seq<uint32>): seq<Task>
    requires forall k | k in keys :: k in pending
  {
    seq(|keys|, i requires 0 <= i < |keys| => CloseOnly(pending[keys[i]]))
  }

  /** The channel, if any, is lost. */
  function Lose(chans: seq<Chan>, ch: Option<ChanId>, loss: Loss): seq<Chan> {
    match ch
    case None => chans
    case Some(c) => if c < |chans| then chans[c := chans[c].(lost := Some(loss))] else chans
  }

  function At(pending: map<uint32, ChanId>, sequence: uint32): Option<ChanId> {
    if sequence in pending then Some(pending[sequence]) else None
  }

  function NewDone(s: System): Chan {
    Chan(DoneChan, s.time, None, 0, 0, None, None)
  }

  function NewReply(s: System, ticket: nat): Chan
    requires ticket < |s.tickets| && s.shared.conn.Some?
  {
    Chan(ReplyChan(ticket, NumberOf(s.tickets[ticket]), s.shared.conn.value, s.shared.done),
         s.time, None, 0, 0, None, None)
  }

  /** A request that has not ended yet. */
  predicate Waits(s: System, c: ChanId) {
    c < |s.chans| && s.chans[c].role.ReplyChan? && s.chans[c].ended.None?
  }

  function RunTask(s: System, i: nat): System
    requires i < |s.tasks| && s.tasks[i].ch < |s.chans|
  {
    var c := s.tasks[i].ch;
    if s.tasks[i].SendReply? then
      s.(chans := s.chans[c := s.chans[c].(sends := s.chans[c].sends + 1)], tasks := s.tasks[i := CloseAfterReply(c)])
    else
      s.(chans := s.chans[c := s.chans[c].(closes := s.chans[c].closes + 1)], tasks := s.tasks[..i] + s.tasks[i + 1..])
  }

  function End(s: System, c: ChanId, ending: Ending): System
    requires c < |s.chans|
  {
    s.(chans := s.chans[c := s.chans[c].(ended := Some(ending))])
  }

  function Enrolled(s: System, ticket: nat): System
    requires ticket < |s.tickets| && s.shared.conn.Some?
  {
    var n := NumberOf(s.tickets[ticket]);
    s.(shared := Register(s.shared, n, |s.chans|),
       chans := Lose(s.chans, At(s.shared.pending, n), Overwritten(|s.chans|)) + [NewReply(s, ticket)])
  }

  /** The request unregisters its number, whoever has the entry by now. */
  function Unregistered(s: System, c: ChanId): System
    requires c < |s.chans| && s.chans[c].role.ReplyChan?
  {
    var n := s.chans[c].role.sequence;
    s.(shared := Unregister(s.shared, n),
       chans := Lose(s.chans, At(s.shared.pending, n),
                     if At(s.shared.pending, n) == Some(c) then Withdrawn else RemovedBy(c)))
  }

  predicate Matched(s: System, pdu: PDU) {
    !HandledOnArrival(pdu.commandID) && pdu.sequenceNumber in s.shared.pending
    && s.shared.pending[pdu.sequenceNumber] < |s.chans|
  }

  function Taken(s: System, from: ConnId, pdu: PDU): System
    requires Matched(s, pdu)
  {
    var c := s.shared.pending[pdu.sequenceNumber];
    s.(shared := Unregister(s.shared, pdu.sequenceNumber),
       chans := s.chans[c := s.chans[c].(answer := Some(Answer(pdu, from, s.time)))],
       tasks := s.tasks + [SendReply(c)])
  }

  /** The effect of an event, or None when it cannot happen. */
  ghost function Act(s: System, e: Event): Option<System> {
    match e
    case OnStartConnect => Some(s.(shared := BeginConnect(s.shared)))
    case OnConnectFailed => Some(s.(shared := FailConnect(s.shared)))
    case OnBound =>
      Some(s.(shared := Publish(s.shared, |s.draws|, |s.chans|),
              chans := Lose(s.chans, s.shared.done, Superseded) + [NewDone(s)], draws := s.draws + [1]))
    case OnClose => Some(s.(shared := Detach(s.shared), tasks := s.tasks + ClosingTasks(s.shared)))
    case OnDraw(k) =>
      if k < |s.draws| then
        Some(s.(draws := s.draws[k := s.draws[k] + 1], tickets := s.tickets + [Ticket(k, s.draws[k] + 1, false)]))
      else None
    case OnRequest(t) =>
      if t < |s.tickets| && !s.tickets[t].used then
        var enrolled := if s.shared.conn.Some? then Enrolled(s, t) else s;
        Some(enrolled.(tickets := s.tickets[t := s.tickets[t].(used := true)]))
      else None
    case OnReceive(c) =>
      if Waits(s, c) && s.chans[c].sends > 0 then Some(End(s, c, GotReply))
      else if Waits(s, c) && s.chans[c].closes > 0 then Some(End(s, c, GotClosed))
      else None
    case OnGiveUp(c) => if Waits(s, c) then Some(Unregistered(End(s, c, GaveUp), c)) else None
    case OnReply(from, pdu) =>
      if from >= |s.draws| then None else Some(if Matched(s, pdu) then Taken(s, from, pdu) else s)
    case OnTask(i) => if i < |s.tasks| && s.tasks[i].ch < |s.chans| then Some(RunTask(s, i)) else None
  }

  ghost function Step(s: System, e: Event): Option<System> {
    match Act(s, e)
    case None => None
    case Some(t) => Some(t.(time := s.time + 1))
  }

  /** The state after a run of events from the start, or None when one cannot happen. */
  ghost function Run(events: seq<Event>): Option<System> {
    if events == [] then Some(START)
    else match Run(events[..|events| - 1])
      case None => None
      case Some(s) => Step(s, events[|events| - 1])
  }

  // -------------------------------------------------------------- invariants

  /** conn and done come and go together; a bound session has a connection; no connection, nobody waiting. */
  predicate SharedInv(s: Shared) {
    && (s.conn.None? <==> s.done.None?)
    && (s.status == Bound ==> s.conn.Some?)
    && (s.conn.None? ==> s.pending == map[])
  }

  /** Where a channel can be held: the pending table, the done field, or a task. */
  datatype Place = InTable(sequence: uint32) | InDone | InTask(index: nat)

  function Holder(s: System, p: Place): Option<ChanId> {
    match p
    case InTable(n) => At(s.shared.pending, n)
    case InDone => s.shared.done
    case InTask(i) => if i < |s.tasks| then Some(s.tasks[i].ch) else None
  }

  /** A channel is held in at most one place. */
  ghost predicate Exclusive(s: System) {
    forall p, q | Holder(s, p).Some? && Holder(s, p) == Holder(s, q) :: p == q
  }

  /** Nothing has been sent on it, and it is neither closed nor lost. */
  predicate Untouched(c: Chan) {
    c.sends == 0 && c.closes == 0 && c.lost.None?
  }

  /** What is known of a channel from the place that holds it. */
  predicate Suits(s: System, p: Place, c: Chan) {
    match p
    case InTable(n) => Untouched(c) && c.answer.None? && c.role.ReplyChan? && c.role.sequence == n
    case InDone => Untouched(c) && c.answer.None? && c.role.DoneChan?
    case InTask(i) =>
      i < |s.tasks| ==>
        match s.tasks[i]
        case SendReply(_) => Untouched(c) && c.answer.Some?
        case CloseAfterReply(_) => c.sends == 1 && c.closes == 0 && c.lost.None? && c.answer.Some?
        case CloseOnly(_) => Untouched(c) && c.answer.None?
  }

  ghost predicate Holding(s: System) {
    forall p | Holder(s, p).Some? :: Holder(s, p).value < |s.chans| && Suits(s, p, s.chans[Holder(s, p).value])
  }

  /** At most one send, only of the reply meant for it; at most one close; neither once it is lost. */
  predicate ChanInv(c: Chan) {
    && c.sends <= 1 && c.closes <= 1
    && (c.sends == 1 ==> c.answer.Some?)
    && (c.answer.Some? ==> c.role.ReplyChan? && c.role.sequence == c.answer.value.pdu.sequenceNumber && c.lost.None?)
    && (c.lost.Some? ==> c.sends == 0 && c.closes == 0)
    && (c.closes == 1 && c.answer.Some? ==> c.sends == 1)
  }

  ghost predicate ChansInv(s: System) {
    forall c | 0 <= c < |s.chans| :: ChanInv(s.chans[c])
  }

  predicate Settled(c: Chan) {
    c.closes > 0 || c.lost.Some?
  }

  /** A channel that is neither closed nor lost is held somewhere. */
  ghost predicate NothingLost(s: System) {
    forall c | 0 <= c < |s.chans| && !Settled(s.chans[c]) :: exists p :: Holder(s, p) == Some(c)
  }

  ghost predicate Inv(s: System) {
    SharedInv(s.shared) && Exclusive(s) && Holding(s) && ChansInv(s) && NothingLost(s)
  }

  // -------------------------------------------------------------- preservation

  /** The places a Close empties, in the order in which their channels are closed. */
  ghost function ClosedPlaces(s: Shared): seq<Place> {
    (if s.done.Some? then [InDone] else []) + TablePlaces(Listing(s.pending.Keys))
  }

  function TablePlaces(keys: seq<uint32>): seq<Place> {
    seq(|keys|, i requires 0 <= i < |keys| => InTable(keys[i]))
  }

  lemma ClosingTasksShape(s: System)
    ensures var t, w := ClosingTasks(s.shared), ClosedPlaces(s.shared);
            && |t| == |w|
            && (forall i | 0 <= i < |t| :: t[i].CloseOnly? && !w[i].InTask? && Holder(s, w[i]) == Some(t[i].ch))
            && (forall i, j | 0 <= i < j < |w| :: w[i] != w[j])
            && (forall p: Place | !p.InTask? && Holder(s, p).Some? :: p in w)
  {
    hide Listing;
    var keys := Listing(s.shared.pending.Keys);
    var w := ClosedPlaces(s.shared);
    var front := if s.shared.done.Some? then 1 else 0;
    forall p: Place | !p.InTask? && Holder(s, p).Some? ensures p in w {
      match p
      case InDone => assert w[0] == p;
      case InTable(n) =>
        assert n in (set x | x in keys);
        var k :| 0 <= k < |keys| && keys[k] == n;
        assert w[front + k] == p;
    }
    forall i, j | 0 <= i < j < |w| ensures w[i] != w[j] {
      if i >= front {
        assert keys[i - front] != keys[j - front];
      }
    }
    forall i | 0 <= i < |w|
      ensures ClosingTasks(s.shared)[i].CloseOnly? && !w[i].InTask?
              && Holder(s, w[i]) == Some(ClosingTasks(s.shared)[i].ch)
    {
      if i >= front {
        assert keys[i - front] in (set x | x in keys);
      }
    }
  }

  /** Where the channel in place p, after the event, was before it. */
  ghost function Origin(s: System, e: Event, p: Place): Place {
    match e
    case OnClose => if p.InTask? && |s.tasks| <= p.index < |s.tasks| + |ClosedPlaces(s.shared)|
                    then ClosedPlaces(s.shared)[p.index - |s.tasks|] else p
    case OnReply(_, pdu) => if p == InTask(|s.tasks|) then InTable(pdu.sequenceNumber) else p
    case OnTask(i) => if i < |s.tasks| && !s.tasks[i].SendReply? && p.InTask? && p.index >= i then InTask(p.index + 1)
      else p
    case _ => p
  }

  /** Every place filled after the event holds the channel of its own origin. */
  ghost predicate Moved(s: System, e: Event, s': System) {
    && (forall p | Holder(s', p).Some? :: Holder(s, Origin(s, e, p)) == Holder(s', p))
    && (forall p, q | Holder(s', p).Some? && Holder(s', q).Some? && Origin(s, e, p) == Origin(s, e, q) :: p == q)
  }

  lemma MovedKeepsExclusive(s: System, e: Event, s': System)
    requires Exclusive(s) && Moved(s, e, s')
    ensures Exclusive(s')
  {
    hide Holder, Origin, Suits;
    forall p, q | Holder(s', p).Some? && Holder(s', p) == Holder(s', q) ensures p == q {
      assert Origin(s, e, p) == Origin(s, e, q) ==> p == q;
    }
  }

  /** Two systems that differ in nothing the ownership invariant looks at. */
  predicate SameOwnership(s: System, s': System) {
    && s'.shared.conn == s.shared.conn && s'.shared.done == s.shared.done && s'.shared.pending == s.shared.pending
    && s'.tasks == s.tasks && |s'.chans| == |s.chans|
    && forall c | 0 <= c < |s.chans| :: s'.chans[c] == s.chans[c].(ended := s'.chans[c].ended)
  }

  lemma SameOwnershipKeepsInv(s: System, s': System)
    requires Inv(s) && SameOwnership(s, s') && SharedInv(s'.shared)
    ensures Inv(s')
  {
    assert forall p :: Holder(s', p) == Holder(s, p);
    assert forall p, c | 0 <= c < |s.chans| :: Suits(s', p, s'.chans[c]) == Suits(s, p, s.chans[c]);
    assert forall c | 0 <= c < |s.chans| ::
           ChanInv(s'.chans[c]) == ChanInv(s.chans[c]) && Settled(s'.chans[c]) == Settled(s.chans[c]);
    hide Holder, Suits, ChanInv, Settled;
    assert NothingLost(s') by {
      forall c | 0 <= c < |s'.chans| && !Settled(s'.chans[c]) ensures exists p :: Holder(s', p) == Some(c) {
        assert !Settled(s.chans[c]);
        var p :| Holder(s, p) == Some(c);
        assert Holder(s', p) == Some(c);
      }
    }
  }

  /** Only one place changes: its channel is given up, and a new one may take the place. */
  ghost predicate Replaced(s: System, s': System, place: Place, loss: Loss, added: seq<Chan>) {
    && (forall p | p != place :: Holder(s', p) == Holder(s, p) && forall c :: Suits(s', p, c) == Suits(s, p, c))
    && |added| <= 1
    && s'.chans == Lose(s.chans, Holder(s, place), loss) + added
    && Holder(s', place) == (if added == [] then None else Some(|s.chans|))
    && forall c | c in added :: Suits(s', place, c) && ChanInv(c)
  }

  lemma ReplacedKeepsInv(s: System, s': System, place: Place, loss: Loss, added: seq<Chan>)
    requires Inv(s) && Replaced(s, s', place, loss, added) && !place.InTask?
    ensures Exclusive(s') && Holding(s') && ChansInv(s') && NothingLost(s')
  {
    assert forall c :: Holder(s, place).Some? && Suits(s, place, c) ==> Untouched(c) && c.answer.None?;
    hide Holder, Suits;
    var held := Holder(s, place);
    var kept := Lose(s.chans, held, loss);
    assert |kept| == |s.chans|;
    assert s'.chans == kept + added;
    assert forall c | 0 <= c < |s.chans| ::
        s'.chans[c] == if held == Some(c) then s.chans[c].(lost := Some(loss)) else s.chans[c];
    assert added != [] ==> s'.chans[|s.chans|] == added[0];
    forall p | Holder(s', p).Some?
      ensures Holder(s', p).value < |s'.chans| && Suits(s', p, s'.chans[Holder(s', p).value])
    {
      if p != place {
        assert Holder(s, p) != held;
      }
    }
    assert ChansInv(s') by {
      assert Holder(s, place).Some? ==> Suits(s, place, s.chans[Holder(s, place).value]);
    }
    forall c | 0 <= c < |s'.chans| && !Settled(s'.chans[c]) ensures exists p :: Holder(s', p) == Some(c) {
      if c < |s.chans| {
        assert Holder(s, place) != Some(c) && !Settled(s.chans[c]);
        var p :| Holder(s, p) == Some(c);
        assert Holder(s', p) == Some(c);
      } else {
        assert Holder(s', place) == Some(c);
      }
    }
  }

  lemma BoundKeepsInv(s: System)
    requires Inv(s)
    ensures Inv(Act(s, OnBound).value)
  {
    var s' := Act(s, OnBound).value;
    var added := NewDone(s);
    assert Holder(s, InDone) == s.shared.done;
    assert forall p | p != InDone :: Holder(s', p) == Holder(s, p) && forall c :: Suits(s', p, c) == Suits(s, p, c);
    assert s'.chans == Lose(s.chans, s.shared.done, Superseded) + [added];
    assert Suits(s', InDone, added) && Holder(s', InDone) == Some(|s.chans|);
    hide Lose, Holder, Suits;
    assert Replaced(s, s', InDone, Superseded, [added]);
    ReplacedKeepsInv(s, s', InDone, Superseded, [added]);
  }

  lemma EnrolKeepsInv(s: System, ticket: nat)
    requires Inv(s) && ticket < |s.tickets| && s.shared.conn.Some?
    ensures Inv(Enrolled(s, ticket))
  {
    var s' := Enrolled(s, ticket);
    var place := InTable(NumberOf(s.tickets[ticket]));
    var loss := Overwritten(|s.chans|);
    var added := NewReply(s, ticket);
    assert Holder(s, place) == At(s.shared.pending, place.sequence);
    assert forall p | p != place :: Holder(s', p) == Holder(s, p) && forall c :: Suits(s', p, c) == Suits(s, p, c);
    assert s'.chans == Lose(s.chans, Holder(s, place), loss) + [added];
    assert Suits(s', place, added) && Holder(s', place) == Some(|s.chans|) && ChanInv(added);
    hide Lose, Holder, Suits, ChanInv, NewReply, Enrolled;
    assert forall c | c in [added] :: c == added;
    assert Replaced(s, s', place, loss, [added]);
    ReplacedKeepsInv(s, s', place, loss, [added]);
  }

  lemma UnregisterKeepsInv(s: System, c: ChanId)
    requires Inv(s) && c < |s.chans| && s.chans[c].role.ReplyChan?
    ensures Inv(Unregistered(s, c))
  {
    var s' := Unregistered(s, c);
    var place := InTable(s.chans[c].role.sequence);
    var loss := if At(s.shared.pending, place.sequence) == Some(c) then Withdrawn else RemovedBy(c);
    var none: seq<Chan> := [];
    assert Holder(s, place) == At(s.shared.pending, place.sequence);
    assert s.shared.conn.None? ==> s'.shared.pending == map[];
    assert s'.chans == Lose(s.chans, Holder(s, place), loss) + none;
    assert forall p | p != place :: Holder(s', p) == Holder(s, p) && forall c :: Suits(s', p, c) == Suits(s, p, c);
    assert Holder(s', place).None? && SharedInv(s'.shared);
    hide Lose, Holder, Suits, ChanInv, Unregistered, At;
    assert Replaced(s, s', place, loss, none);
    ReplacedKeepsInv(s, s', place, loss, none);
  }

  /** After a Close only tasks hold channels; a new task holds the channel of the place it empties. */
  lemma ClosePlaces(s: System, p: Place)
    ensures var s', w := Act(s, OnClose).value, ClosedPlaces(s.shared);
            && (Holder(s', p).Some? ==>
                  && p.InTask? && Holder(s, Origin(s, OnClose, p)) == Holder(s', p)
                  && (p.index < |s.tasks| ==> Origin(s, OnClose, p) == p && s'.tasks[p.index] == s.tasks[p.index])
                  && (p.index >= |s.tasks| ==>
                        && p.index < |s.tasks| + |w| && s'.tasks[p.index].CloseOnly?
                        && Origin(s, OnClose, p) == w[p.index - |s.tasks|] && !Origin(s, OnClose, p).InTask?))
            && (Holder(s, p).Some? ==> exists q :: Holder(s', q) == Holder(s, p))
  {
    hide ClosingTasks, ClosedPlaces;
    ClosingTasksShape(s);
    var s' := Act(s, OnClose).value;
    var w := ClosedPlaces(s.shared);
    if Holder(s, p).Some? {
      if p.InTask? {
        assert Holder(s', p) == Holder(s, p);
      } else {
        var i :| 0 <= i < |w| && w[i] == p;
        assert Holder(s', InTask(|s.tasks| + i)) == Holder(s, p);
      }
    }
  }

  lemma CloseKeepsInv(s: System)
    requires Inv(s)
    ensures Inv(Act(s, OnClose).value)
  {
    var e := OnClose;
    var s' := Act(s, e).value;
    var w := ClosedPlaces(s.shared);
    assert forall i, j | 0 <= i < j < |w| :: w[i] != w[j] by { ClosingTasksShape(s); }
    hide ClosingTasks, ClosedPlaces, Origin, Holder, Listing;
    forall p ensures Holder(s', p).Some? ==>
          && p.InTask? && Holder(s, Origin(s, e, p)) == Holder(s', p)
          && (p.index < |s.tasks| ==> Origin(s, e, p) == p && s'.tasks[p.index] == s.tasks[p.index])
          && (p.index >= |s.tasks| ==>
                && p.index < |s.tasks| + |w| && s'.tasks[p.index].CloseOnly?
                && Origin(s, e, p) == w[p.index - |s.tasks|] && !Origin(s, e, p).InTask?)
    {
      ClosePlaces(s, p);
    }
    assert Moved(s, e, s') by { hide Suits; }
    MovedKeepsExclusive(s, e, s');
    assert Holding(s') by {
      forall p | Holder(s', p).Some?
        ensures Holder(s', p).value < |s'.chans| && Suits(s', p, s'.chans[Holder(s', p).value])
      {
        assert Suits(s, Origin(s, e, p), s.chans[Holder(s', p).value]);
      }
    }
    assert ChansInv(s');
    assert NothingLost(s') by {
      forall c | 0 <= c < |s'.chans| && !Settled(s'.chans[c]) ensures exists p :: Holder(s', p) == Some(c) {
        var p :| Holder(s, p) == Some(c);
        ClosePlaces(s, p);
      }
    }
    assert SharedInv(s'.shared);
  }

  /** A taken channel moves from the table to a new task; all else stays where it is. */
  lemma TakenPlaces(s: System, from: ConnId, pdu: PDU)
    requires Inv(s) && Matched(s, pdu)
    ensures var s' := Taken(s, from, pdu);
            var place, task := InTable(pdu.sequenceNumber), InTask(|s.tasks|);
            var c0 := s.shared.pending[pdu.sequenceNumber];
            && (forall p | p != place && p != task ::
                  Holder(s', p) == Holder(s, p) && forall c :: Suits(s', p, c) == Suits(s, p, c))
            && Holder(s', task) == Holder(s, place) == Some(c0) && Holder(s', place).None? && Holder(s, task).None?
            && |s'.chans| == |s.chans| && c0 < |s.chans|
            && Suits(s, place, s.chans[c0]) && Suits(s', task, s'.chans[c0])
            && ChanInv(s'.chans[c0])
            && forall c | 0 <= c < |s.chans| && c != c0 :: s'.chans[c] == s.chans[c]
  {
    var place := InTable(pdu.sequenceNumber);
    var c0 := s.shared.pending[pdu.sequenceNumber];
    assert Holder(s, place) == Some(c0);
    assert Suits(s, place, s.chans[c0]) && ChanInv(s.chans[c0]);
    hide Inv;
  }

  lemma ReplyKeepsInv(s: System, from: ConnId, pdu: PDU)
    requires Inv(s) && Matched(s, pdu)
    ensures Inv(Taken(s, from, pdu))
  {
    var e := OnReply(from, pdu);
    var s' := Taken(s, from, pdu);
    var place, task := InTable(pdu.sequenceNumber), InTask(|s.tasks|);
    TakenPlaces(s, from, pdu);
    assert Moved(s, e, s');
    MovedKeepsExclusive(s, e, s');
    assert SharedInv(s'.shared);
    hide Holder, Suits, Origin, Moved, Taken, ChanInv, Settled;
    assert Holding(s') by {
      forall p | Holder(s', p).Some?
        ensures Holder(s', p).value < |s'.chans| && Suits(s', p, s'.chans[Holder(s', p).value])
      {
        if p != task { assert Holder(s, p) != Holder(s, place); }
      }
    }
    forall c | 0 <= c < |s'.chans| && !Settled(s'.chans[c]) ensures exists p :: Holder(s', p) == Some(c) {
      if Holder(s, place) == Some(c) {
        assert Holder(s', task) == Some(c);
      } else {
        var p :| Holder(s, p) == Some(c);
        assert Holder(s', p) == Some(c);
      }
    }
  }

  lemma SendKeepsInv(s: System, i: nat)
    requires Inv(s) && i < |s.tasks| && s.tasks[i].ch < |s.chans| && s.tasks[i].SendReply?
    ensures Inv(RunTask(s, i))
  {
    var s' := RunTask(s, i);
    var place := InTask(i);
    assert forall p :: Holder(s', p) == Holder(s, p);
    assert forall p, c | p != place :: Suits(s', p, c) == Suits(s, p, c);
    assert Holder(s, place) == Some(s.tasks[i].ch) && Suits(s, place, s.chans[s.tasks[i].ch]);
    assert Holding(s') by {
      hide Holder;
      forall p | Holder(s', p).Some?
        ensures Holder(s', p).value < |s'.chans| && Suits(s', p, s'.chans[Holder(s', p).value])
      {
        if p != place { assert Holder(s, p) != Holder(s, place); }
      }
    }
    hide Holder, Suits;
    assert NothingLost(s');
  }

  /** Finishing a task frees its place, and later tasks move up by one. */
  lemma ClosedTaskPlaces(s: System, i: nat, p: Place)
    requires i < |s.tasks| && s.tasks[i].ch < |s.chans| && !s.tasks[i].SendReply?
    ensures var s', q := RunTask(s, i), Origin(s, OnTask(i), p);
            && q != InTask(i)
            && (Holder(s', p).Some? ==> Holder(s', p) == Holder(s, q) && forall c :: Suits(s', p, c) == Suits(s, q, c))
            && (p != InTask(i) ==> exists r :: Holder(s', r) == Holder(s, p))
            && (forall r | Origin(s, OnTask(i), r) == q :: r == p)
  {
    var s' := RunTask(s, i);
    assert forall k | 0 <= k < |s'.tasks| :: s'.tasks[k] == s.tasks[if k < i then k else k + 1];
    if p != InTask(i) {
      var r := if p.InTask? && p.index > i then InTask(p.index - 1) else p;
      assert Holder(s', r) == Holder(s, p);
    }
  }

  lemma CloseTaskKeepsInv(s: System, i: nat)
    requires Inv(s) && i < |s.tasks| && s.tasks[i].ch < |s.chans| && !s.tasks[i].SendReply?
    ensures Inv(RunTask(s, i))
  {
    var e := OnTask(i);
    var s' := RunTask(s, i);
    var c0 := s.tasks[i].ch;
    assert Holder(s, InTask(i)) == Some(c0) && Suits(s, InTask(i), s.chans[c0]);
    assert ChansInv(s') by { assert ChanInv(s.chans[c0]); }
    hide Holder, Suits, Origin;
    forall p ensures
          && Origin(s, e, p) != InTask(i)
          && (Holder(s', p).Some? ==> Holder(s', p) == Holder(s, Origin(s, e, p)) && forall c ::
               Suits(s', p, c) == Suits(s, Origin(s, e, p), c))
          && (forall r | Origin(s, e, r) == Origin(s, e, p) :: r == p)
    {
      ClosedTaskPlaces(s, i, p);
    }
    assert Moved(s, e, s');
    MovedKeepsExclusive(s, e, s');
    forall p | Holder(s', p).Some?
      ensures Holder(s', p).value < |s'.chans| && Suits(s', p, s'.chans[Holder(s', p).value])
    {
      assert Holder(s, Origin(s, e, p)) != Holder(s, InTask(i));
    }
    forall c | 0 <= c < |s'.chans| && !Settled(s'.chans[c]) ensures exists p :: Holder(s', p) == Some(c) {
      assert c != c0;
      var p :| Holder(s, p) == Some(c);
      ClosedTaskPlaces(s, i, p);
    }
  }

  /** Every step keeps the ownership invariant. */
  lemma StepKeepsInv(s: System, e: Event)
    requires Inv(s) && Step(s, e).Some?
    ensures Inv(Step(s, e).value)
  {
    hide Inv, ClosingTasks, Enrolled, Unregistered, Taken, RunTask, SharedInv;
    var t := Act(s, e).value;
    match e {
      case OnStartConnect => StatusKeepsInv(s, t);
      case OnConnectFailed => StatusKeepsInv(s, t);
      case OnBound => BoundKeepsInv(s);
      case OnClose => CloseKeepsInv(s);
      case OnDraw(_) => StatusKeepsInv(s, t);
      case OnRequest(ticket) =>
        if s.shared.conn.Some? {
          EnrolKeepsInv(s, ticket);
          StatusKeepsInv(Enrolled(s, ticket), t);
        } else {
          StatusKeepsInv(s, t);
        }
      case OnReceive(_) => StatusKeepsInv(s, t);
      case OnGiveUp(c) =>
        StatusKeepsInv(s, End(s, c, GaveUp));
        UnregisterKeepsInv(End(s, c, GaveUp), c);
      case OnReply(from, pdu) => if Matched(s, pdu) { ReplyKeepsInv(s, from, pdu); }
      case OnTask(i) => if s.tasks[i].SendReply? { SendKeepsInv(s, i); } else { CloseTaskKeepsInv(s, i); }
    }
    StatusKeepsInv(t, t.(time := s.time + 1));
  }

  /** A status no connection contradicts, numbers, endings and the clock do not matter to ownership. */
  lemma StatusKeepsInv(s: System, s': System)
    requires Inv(s) && SameOwnership(s, s') && (s'.shared.status == s.shared.status || s'.shared.status != Bound)
    ensures Inv(s')
  {
    assert SharedInv(s.shared) ==> SharedInv(s'.shared);
    assert SharedInv(s.shared);
    SameOwnershipKeepsInv(s, s');
  }

  /** Every interleaving keeps the ownership invariant. */
  lemma {:induction false} RunKeepsInv(events: seq<Event>)
    requires Run(events).Some?
    ensures Inv(Run(events).value)
  {
    hide Step, Inv;
    if events == [] {
      StartInv();
    } else {
      var init := events[..|events| - 1];
      RunKeepsInv(init);
      StepKeepsInv(Run(init).value, events[|events| - 1]);
    }
  }

  lemma StartInv()
    ensures Inv(START)
  {
  }
}
