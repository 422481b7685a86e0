/**
 Delivery receipts: the per-segment submissions of a message, the status they
 add up to, and what a receipt changes (cmd/mmsc/main.go; the tables are those
 of internal/db/sql.go, as maps from their primary keys).
 */
module Receipts {
  import opened Bytes
  import Submit

  datatype SubmissionState = Pending | Delivered | Failed

  /** One submitted segment. */
  datatype Submission = Submission(
    upstream: text, remoteID: text, messageID: text, recipient: text,
    segmentIndex: int, segmentCount: int, state: SubmissionState, errorText: text)

  datatype Status = Queued | Delivering | DeliveredStatus | Expired | Rejected | Forwarded | Unreachable

  datatype Receipt = Receipt(id: text, stat: text, err: text)

  function MapReceiptStatus(r: Receipt): (SubmissionState, text) {
    var stat := ToUpper(TrimSpace(r.stat));
    if stat == Ascii("DELIVRD") then (Delivered, [])
    else if stat in {Ascii("EXPIRED"), Ascii("DELETED"), Ascii("UNDELIV"), Ascii("REJECTD"), Ascii("UNKNOWN")} then
      (Failed, TrimSpace(r.stat + if r.err != [] then Ascii(" err:") + r.err else []))
    else (Pending, [])
  }

  /** The words for a segment that will not arrive, in any letter case. */
  predicate SaysFailed(word: text) {
    || EqualFold(word, Ascii("EXPIRED"))
    || EqualFold(word, Ascii("DELETED"))
    || EqualFold(word, Ascii("UNDELIV"))
    || EqualFold(word, Ascii("REJECTD"))
    || EqualFold(word, Ascii("UNKNOWN"))
  }

  predicate SaysDelivered(word: text) {
    EqualFold(word, Ascii("DELIVRD"))
  }

  /**
   What a receipt means, by the word in it without surrounding space, in any letter case: delivered
   on one word, failed on five, pending on all others. A failure leaves its word as the text, with
   the upstream's error code behind it when there is one.
   */
  lemma ReceiptStates(r: Receipt)
    ensures MapReceiptStatus(r).0 == Delivered <==> SaysDelivered(TrimSpace(r.stat))
    ensures MapReceiptStatus(r).0 == Failed <==> SaysFailed(TrimSpace(r.stat))
    ensures !(SaysDelivered(TrimSpace(r.stat)) && SaysFailed(TrimSpace(r.stat)))
    ensures MapReceiptStatus(r).1 ==
            if !SaysFailed(TrimSpace(r.stat)) then []
            else if r.err == [] then TrimSpace(r.stat)
            else TrimSpace(r.stat + [0x20, 0x65, 0x72, 0x72, 0x3A] + r.err)
  {
    var word := TrimSpace(r.stat);
    FoldedWord(word, "DELIVRD");
    FoldedWord(word, "EXPIRED");
    FoldedWord(word, "DELETED");
    FoldedWord(word, "UNDELIV");
    FoldedWord(word, "REJECTD");
    FoldedWord(word, "UNKNOWN");
    WordsDiffer();
    hide ToUpper, TrimSpace, Ascii, EqualFold;
    FailureText(r);
  }

  lemma FailureText(r: Receipt)
    ensures r.stat + (if r.err != [] then Ascii(" err:") + r.err else []) ==
            if r.err == [] then r.stat else r.stat + [0x20, 0x65, 0x72, 0x72, 0x3A] + r.err
  {
    assert Ascii(" err:") == [0x20, 0x65, 0x72, 0x72, 0x3A];
  }

  /** A word in capitals is met by exactly the texts that are it in capitals. */
  lemma FoldedWord(word: text, capitals: string)
    requires forall i | 0 <= i < |capitals| :: 'A' <= capitals[i] <= 'Z'
    ensures EqualFold(word, Ascii(capitals)) <==> ToUpper(word) == Ascii(capitals)
  {
    SameUpper(word, Ascii(capitals));
    assert ToUpper(Ascii(capitals)) == Ascii(capitals);
  }

  lemma WordsDiffer()
    ensures Ascii("DELIVRD") !in {Ascii("EXPIRED"), Ascii("DELETED"), Ascii("UNDELIV"), Ascii("REJECTD"),
                                  Ascii("UNKNOWN")}
  {
    var d := Ascii("DELIVRD");
    assert d[0] == 0x44 && d[3] == 0x49;
    assert Ascii("EXPIRED")[0] == 0x45 && Ascii("DELETED")[3] == 0x45 && Ascii("UNDELIV")[0] == 0x55;
    assert Ascii("REJECTD")[0] == 0x52 && Ascii("UNKNOWN")[0] == 0x55;
  }

  // ------------------------------------------------------------- aggregation

  function GroupKey(s: Submission): text {
    s.upstream + [0] + s.recipient
  }

  function GroupKeys(subs: set<Submission>): set<text> {
    set s | s in subs :: GroupKey(s)
  }

  function DeliveredIndices(subs: set<Submission>, key: text): set<int> {
    set s | s in subs && GroupKey(s) == key && s.state == Delivered :: s.segmentIndex
  }

  /** n is the largest segment count stated in the group. */
  ghost predicate IsLargest(subs: set<Submission>, key: text, n: int) {
    && (forall s | s in subs && GroupKey(s) == key :: s.segmentCount <= n)
    && (exists s :: s in subs && GroupKey(s) == key && s.segmentCount == n)
  }

  /** As many distinct segments of the group were delivered as its largest count says there are. */
  ghost predicate Full(subs: set<Submission>, key: text) {
    var n := |DeliveredIndices(subs, key)|;
    n > 0 && IsLargest(subs, key, n)
  }

  ghost predicate AnyFailed(subs: set<Submission>) {
    exists s :: s in subs && s.state == Failed
  }

  /** The status the submissions of a message add up to, if they decide one. */
  ghost function Aggregate(subs: set<Submission>): Option<Status> {
    if AnyFailed(subs) then Some(Unreachable)
    else if subs != {} && forall k | k in GroupKeys(subs) :: Full(subs, k) then Some(DeliveredStatus)
    else None
  }

  datatype Group = Group(expected: int, delivered: set<int>, failed: bool)

  /** What a group record says of the submissions seen so far. */
  ghost predicate Records(g: Group, subs: set<Submission>, key: text) {
    && g.expected >= 0
    && (forall s | s in subs && GroupKey(s) == key :: s.segmentCount <= g.expected)
    && (g.expected > 0 ==> exists s :: s in subs && GroupKey(s) == key && s.segmentCount == g.expected)
    && g.delivered == DeliveredIndices(subs, key)
    && (g.failed <==> exists s :: s in subs && GroupKey(s) == key && s.state == Failed)
  }

  function Extended(g: Group, s: Submission): Group {
    Group(if s.segmentCount > g.expected then s.segmentCount else g.expected,
          if s.state == Delivered then g.delivered + {s.segmentIndex} else g.delivered,
          g.failed || s.state == Failed)
  }

  lemma RecordsExtended(g: Group, subs: set<Submission>, s: Submission)
    requires Records(g, subs, GroupKey(s))
    ensures Records(Extended(g, s), subs + {s}, GroupKey(s))
  {
    hide GroupKey;
    var key := GroupKey(s);
    if s.segmentCount > g.expected {
      assert s in subs + {s};
    } else if g.expected > 0 {
      var t :| t in subs && GroupKey(t) == key && t.segmentCount == g.expected;
      assert t in subs + {s};
    }
    if g.failed {
      var t :| t in subs && GroupKey(t) == key && t.state == Failed;
      assert t in subs + {s};
    } else if s.state == Failed {
      assert s in subs + {s};
    }
  }

  lemma RecordsOther(g: Group, subs: set<Submission>, s: Submission, key: text)
    requires Records(g, subs, key) && key != GroupKey(s)
    ensures Records(g, subs + {s}, key)
  {
    hide GroupKey;
    assert DeliveredIndices(subs + {s}, key) == DeliveredIndices(subs, key);
    if g.expected > 0 {
      var t :| t in subs && GroupKey(t) == key && t.segmentCount == g.expected;
      assert t in subs + {s};
    }
    if g.failed {
      var t :| t in subs && GroupKey(t) == key && t.state == Failed;
      assert t in subs + {s};
    }
  }

  lemma RecordsNone(subs: set<Submission>, key: text)
    requires key !in GroupKeys(subs)
    ensures Records(Group(0, {}, false), subs, key)
  {
    forall s | s in subs ensures GroupKey(s) != key {
      assert GroupKey(s) in GroupKeys(subs);
    }
  }

  /** Collects the submissions by upstream and recipient. */
  method CollectGroups(submissions: seq<Submission>) returns (groups: map<text, Group>)
    ensures var subs := set s | s in submissions;
            groups.Keys == GroupKeys(subs) && forall k | k in groups :: Records(groups[k], subs, k)
  {
    groups := map[];
    ghost var subs: set<Submission> := {};
    var i := 0;
    hide Records, GroupKey;
    while i < |submissions|
      invariant 0 <= i <= |submissions|
      invariant subs == set s | s in submissions[..i]
      invariant groups.Keys == GroupKeys(subs)
      invariant forall k | k in groups :: Records(groups[k], subs, k)
    {
      var s := submissions[i];
      var key := GroupKey(s);
      var group := Group(0, {}, false);
      if key in groups {
        group := groups[key];
      } else {
        RecordsNone(subs, key);
      }
      RecordsExtended(group, subs, s);
      forall k | k in groups && k != key ensures Records(groups[k], subs + {s}, k) {
        RecordsOther(groups[k], subs, s, k);
      }
      groups := groups[key := Extended(group, s)];
      assert submissions[..i + 1] == submissions[..i] + [s];
      subs := subs + {s};
      i := i + 1;
    }
    assert submissions[..i] == submissions;
  }

  predicate Filled(g: Group) {
    g.expected > 0 && |g.delivered| == g.expected
  }

  /** The groups are scanned in map order; the first failed one decides. */
  method AggregateMessageStatus(submissions: seq<Submission>) returns (status: Option<Status>)
    ensures status == Aggregate(set s | s in submissions)
  {
    hide Records, Full, GroupKey, AnyFailed, Filled;
    ghost var subs := set s | s in submissions;
    if |submissions| == 0 {
      assert subs == {};
      NothingFailed();
      return None;
    }
    assert submissions[0] in subs && GroupKey(submissions[0]) in GroupKeys(subs);
    var groups := CollectGroups(submissions);
    assert groups.Keys != {};
    var allDelivered := |groups| > 0;
    var left := groups.Keys;
    while left != {}
      invariant left <= groups.Keys
      invariant forall k | k in groups && k !in left :: !groups[k].failed
      invariant allDelivered <==> forall k | k in groups && k !in left :: Filled(groups[k])
      decreases left
    {
      var key :| key in left;
      left := left - {key};
      if groups[key].failed {
        SomeFailed(subs, groups[key], key);
        return Some(Unreachable);
      }
      if !Filled(groups[key]) {
        allDelivered := false;
      }
    }
    NoneFailed(subs, groups);
    forall k | k in groups ensures Filled(groups[k]) <==> Full(subs, k) {
      FullFromRecord(subs, groups[k], k);
    }
    status := if allDelivered then Some(DeliveredStatus) else None;
  }

  lemma NothingFailed()
    ensures !AnyFailed({})
  {
  }

  lemma SomeFailed(subs: set<Submission>, g: Group, key: text)
    requires Records(g, subs, key) && g.failed
    ensures AnyFailed(subs)
  {
  }

  lemma NoneFailed(subs: set<Submission>, groups: map<text, Group>)
    requires groups.Keys == GroupKeys(subs)
    requires forall k | k in groups :: Records(groups[k], subs, k) && !groups[k].failed
    ensures !AnyFailed(subs)
  {
    forall s | s in subs ensures s.state != Failed {
      assert GroupKey(s) in groups;
    }
  }

  lemma FullFromRecord(subs: set<Submission>, g: Group, key: text)
    requires Records(g, subs, key)
    ensures Filled(g) <==> Full(subs, key)
  {
    hide GroupKey;
  }

  // --------------------------------------------------------- the repository

  /** Primary key of a submission. */
  datatype Key = Key(upstream: text, remoteID: text)

  /** The two tables, and the failure reports attempted so far, by message. */
  datatype Db = Db(submissions: map<Key, Submission>, statuses: map<text, Status>, attempts: seq<text>)

  /** A receipt as it comes in; `reporter` is absent, or what a report through it answers. */
  datatype Event = Event(upstream: text, receipt: Receipt, reporter: Option<Result<()>>)

  function KeyOf(e: Event): Key {
    Key(e.upstream, e.receipt.id)
  }

  /** The submissions of one message. */
  function SubmissionsOf(submissions: map<Key, Submission>, messageID: text): set<Submission> {
    set k | k in submissions && submissions[k].messageID == messageID :: submissions[k]
  }

  function Updated(submissions: map<Key, Submission>, e: Event): map<Key, Submission>
    requires KeyOf(e) in submissions
  {
    var (state, errorText) := MapReceiptStatus(e.receipt);
    submissions[KeyOf(e) := submissions[KeyOf(e)].(state := state, errorText := errorText)]
  }

  /** What a receipt does to the tables, and what its handler returns. */
  ghost function Handle(db: Db, e: Event): (Db, Result<()>) {
    if e.receipt.id == [] then (db, Ok(()))
    else if KeyOf(e) !in db.submissions then (db, Err(NotFound))
    else
      var m := db.submissions[KeyOf(e)].messageID;
      var updated := db.(submissions := Updated(db.submissions, e));
      match Aggregate(SubmissionsOf(updated.submissions, m))
      case None => (updated, Ok(()))
      case Some(status) =>
        if m !in db.statuses then (updated, Err(NotFound))
        else
          var settled := updated.(statuses := db.statuses[m := status]);
          if e.reporter.Some? && status == Unreachable && db.statuses[m] != Unreachable then
            (settled.(attempts := db.attempts + [m]), e.reporter.value)
          else (settled, Ok(()))
  }

  class Repository {
    var submissions: map<Key, Submission>
    var statuses: map<text, Status>
    var attempts: seq<text>

    ghost function View(): Db
      reads this
    {
      Db(submissions, statuses, attempts)
    }

    /** Sets the state of one submission and returns the row. */
    method UpdateSubmissionReceipt(key: Key, state: SubmissionState, errorText: text) returns (r: Result<Submission>)
      modifies `submissions
      ensures key !in old(submissions) ==> r == Err(NotFound) && submissions == old(submissions)
      ensures key in old(submissions) ==>
                && r == Ok(old(submissions)[key].(state := state, errorText := errorText))
                && submissions == old(submissions)[key := r.value]
    {
      if key !in submissions {
        return Err(NotFound);
      }
      submissions := submissions[key := submissions[key].(state := state, errorText := errorText)];
      r := Ok(submissions[key]);
    }

    /** The rows of a message, in whatever order the table yields them. */
    method ListSubmissions(messageID: text) returns (listed: seq<Submission>)
      ensures (set s | s in listed) == SubmissionsOf(submissions, messageID)
    {
      listed := [];
      ghost var seen: set<Submission> := {};
      var left := submissions.Keys;
      while left != {}
        invariant left <= submissions.Keys
        invariant seen == set s | s in listed
        invariant seen == set k | k in submissions && k !in left && submissions[k].messageID == messageID ::
                  submissions[k]
        decreases left
      {
        var key :| key in left;
        left := left - {key};
        if submissions[key].messageID == messageID {
          listed := listed + [submissions[key]];
          seen := seen + {submissions[key]};
        }
      }
    }

    method HandleDeliveryReceipt(e: Event) returns (r: Result<()>)
      modifies this
      ensures (View(), r) == Handle(old(View()), e)
    {
      hide MapReceiptStatus, SubmissionsOf, Aggregate;
      if e.receipt.id == [] {
        return Ok(());
      }
      var (state, errorText) := MapReceiptStatus(e.receipt);
      var updated := UpdateSubmissionReceipt(KeyOf(e), state, errorText);
      if updated.Err? {
        return Err(updated.error);
      }
      var m := updated.value.messageID;
      var listed := ListSubmissions(m);
      var status := AggregateMessageStatus(listed);
      if status.None? {
        return Ok(());
      }
      if m !in statuses {
        return Err(NotFound);
      }
      var previous := statuses[m];
      statuses := statuses[m := status.value];
      if e.reporter.Some? && status.value == Unreachable && previous != Unreachable {
        attempts := attempts + [m];
        return e.reporter.value;
      }
      r := Ok(());
    }

    /** The tracker the manager hands to the segment loop. */
    method Track(upstream: text, messageID: text, recipient: text, t: Submit.Tracked) returns (r: Result<()>)
      modifies `submissions
      ensures submissions == Tracking(old(submissions), upstream, messageID, recipient, t)
      ensures r.Err? <==> t.remoteID != [] && messageID != [] && (upstream == [] || recipient == [])
    {
      if t.remoteID == [] || messageID == [] {
        return Ok(());
      }
      r := CreateSubmission(Row(upstream, messageID, recipient, t));
    }

    /** Records an acknowledged segment; one with the same key is replaced. */
    method CreateSubmission(s: Submission) returns (r: Result<()>)
      modifies `submissions
      ensures r.Err? <==> s.upstream == [] || s.remoteID == [] || s.messageID == [] || s.recipient == []
      ensures submissions == if r.Err? then old(submissions) else Recorded(old(submissions), s)
    {
      if s.upstream == [] || s.remoteID == [] || s.messageID == [] || s.recipient == [] {
        return Err(EmptyValue);
      }
      var count := if s.segmentCount <= 0 then 1 else s.segmentCount;
      submissions := submissions[Key(s.upstream, s.remoteID) := s.(segmentCount := count)];
      r := Ok(());
    }
  }

  function Recorded(submissions: map<Key, Submission>, s: Submission): map<Key, Submission> {
    submissions[Key(s.upstream, s.remoteID) := s.(segmentCount := if s.segmentCount <= 0 then 1 else s.segmentCount)]
  }

  /** The row for a tracked segment. */
  function Row(upstream: text, messageID: text, recipient: text, t: Submit.Tracked): Submission {
    Submission(upstream, t.remoteID, messageID, recipient, t.index, t.count, Pending, [])
  }

  /** What tracking one segment leaves in the table: an upstream that gives no message ID leaves no row. */
  function Tracking(submissions: map<Key, Submission>, upstream: text, messageID: text, recipient: text,
                    t: Submit.Tracked): map<Key, Submission>
  {
    if t.remoteID == [] || messageID == [] || upstream == [] || recipient == [] then submissions
    else Recorded(submissions, Row(upstream, messageID, recipient, t))
  }
}
