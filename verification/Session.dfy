/**
 The SMPP session of internal/smpp/session.go: the sections it runs under its
 mutex, as methods of a class, each tied to a function on the shared state.
 Connections and channels are known by number.
 */
module Session {
  import opened Bytes
  import opened SmppCodec

  datatype Status = Disconnected | Connecting | Bound

  type ConnId = nat
  type ChanId = nat

  /** What the mutex protects. */
  datatype Shared = Shared(
    conn: Option<ConnId>,
    status: Status,
    done: Option<ChanId>,
    pending: map<uint32, ChanId>)

  const INITIAL := Shared(None, Disconnected, None, map[])

  predicate AlreadyBound(s: Shared) {
    s.status == Bound && s.conn.Some?
  }

  function BeginConnect(s: Shared): Shared {
    if AlreadyBound(s) then s else s.(status := Connecting)
  }

  function FailConnect(s: Shared): Shared {
    s.(status := Disconnected)
  }

  function Publish(s: Shared, conn: ConnId, done: ChanId): Shared {
    s.(conn := Some(conn), status := Bound, done := Some(done))
  }

  function Detach(s: Shared): Shared {
    INITIAL
  }

  function Register(s: Shared, sequence: uint32, ch: ChanId): Shared {
    if s.conn.None? then s else s.(pending := s.pending[sequence := ch])
  }

  function Unregister(s: Shared, sequence: uint32): Shared {
    s.(pending := s.pending - {sequence})
  }

  class Session {
    var conn: Option<ConnId>
    var state: Status
    var done: Option<ChanId>
    var pending: map<uint32, ChanId>

    ghost function View(): Shared
      reads this
    {
      Shared(conn, state, done, pending)
    }

    constructor ()
      ensures View() == INITIAL
    {
      conn, state, done, pending := None, Disconnected, None, map[];
    }

    /** The first locked section of Connect; true when there is nothing to do. */
    method StartConnect() returns (bound: bool)
      modifies this
      ensures bound == AlreadyBound(old(View()))
      ensures View() == BeginConnect(old(View()))
    {
      if state == Bound && conn.Some? {
        return true;
      }
      state := Connecting;
      bound := false;
    }

    /** After a failed dial or bind. */
    method SetDisconnected()
      modifies this
      ensures View() == FailConnect(old(View()))
    {
      state := Disconnected;
    }

    /** The last locked section of Connect: the bound connection and a fresh done channel. */
    method SetBound(c: ConnId, d: ChanId)
      modifies this
      ensures View() == Publish(old(View()), c, d)
    {
      conn := Some(c);
      state := Bound;
      done := Some(d);
    }

    /** The locked section of Close: everything is taken out, to be closed outside the lock. */
    method TakeAll() returns (c: Option<ConnId>, d: Option<ChanId>, p: map<uint32, ChanId>)
      modifies this
      ensures c == old(conn) && d == old(done) && p == old(pending)
      ensures View() == Detach(old(View()))
    {
      c := conn;
      conn := None;
      d := done;
      done := None;
      state := Disconnected;
      p := pending;
      pending := map[];
    }

    /** The locked section of Request; the result is the done channel to wait on. */
    method Enrol(sequence: uint32, ch: ChanId) returns (r: Result<Option<ChanId>>)
      modifies this
      ensures r == if old(conn).None? then Err(NotFound) else Ok(old(done))
      ensures View() == Register(old(View()), sequence, ch)
    {
      if conn.None? {
        return Err(NotFound);
      }
      pending := pending[sequence := ch];
      r := Ok(done);
    }

    method UnregisterPending(sequence: uint32)
      modifies this
      ensures View() == Unregister(old(View()), sequence)
    {
      pending := pending - {sequence};
    }

    /** The locked section of the read loop: the channel waiting for a reply, if any. */
    method TakePending(sequence: uint32) returns (ch: Option<ChanId>)
      modifies this
      ensures ch == if sequence in old(pending) then Some(old(pending)[sequence]) else None
      ensures View() == Unregister(old(View()), sequence)
    {
      ch := if sequence in pending then Some(pending[sequence]) else None;
      if ch.Some? {
        pending := pending - {sequence};
      } else {
        assert pending - {sequence} == pending;
      }
    }
  }

  /** enquire_link, deliver_sm and unbind are answered at once, never matched with a request. */
  predicate HandledOnArrival(commandID: uint32) {
    commandID in {CMD_ENQUIRE_LINK, CMD_DELIVER_SM, CMD_UNBIND}
  }

  function BindCommands(mode: text): (uint32, uint32) {
    if mode == Ascii("receiver") then (0x0000_0001, 0x8000_0001)
    else if mode == Ascii("transmitter") then (0x0000_0002, 0x8000_0002)
    else (0x0000_0009, 0x8000_0009)
  }

  /** What is bound as: a receiver or a transmitter when that is the mode, and otherwise both. */
  lemma BindModes(mode: text)
    ensures mode == [0x72, 0x65, 0x63, 0x65, 0x69, 0x76, 0x65, 0x72] ==> BindCommands(mode) == (0x01, 0x8000_0001)
    ensures mode == Ascii("transmitter") ==> BindCommands(mode) == (0x02, 0x8000_0002)
    ensures mode !in {Ascii("receiver"), Ascii("transmitter")} ==> BindCommands(mode) == (0x09, 0x8000_0009)
  {
    assert Ascii("receiver") == [0x72, 0x65, 0x63, 0x65, 0x69, 0x76, 0x65, 0x72];
    assert |Ascii("transmitter")| == 11;
  }

  /** The response a bind waits for is the request's command with the response bit set. */
  lemma BindResponseMatches(mode: text)
    ensures var (request, response) := BindCommands(mode);
            response == request + 0x8000_0000 && ShapeOf(request) == Bind && ShapeOf(response) == BindResp
  {
  }
}
