/**
 What the receipt handler keeps over whole runs, with no other writer of the
 status: when a message becomes delivered or unreachable, and how often a
 failure is reported.
 */
module ReceiptRuns {
  import opened Bytes
  import opened Receipts
  import opened Sorting

  // ----------------------------------------------------- meaning of the aggregate

  predicate SameGroup(s: Submission, t: Submission) {
    s.upstream == t.upstream && s.recipient == t.recipient
  }

  /** The upstream name of `s` is that of `t`, a NUL, and something that `t` has in front of its recipient. */
  predicate Shifted(s: Submission, t: Submission) {
    && |s.upstream| > |t.upstream| && s.upstream[..|t.upstream|] == t.upstream && s.upstream[|t.upstream|] == 0
    && t.recipient == s.upstream[|t.upstream| + 1..] + [0] + s.recipient
  }

  lemma ShiftedCollides(s: Submission, t: Submission)
    ensures GroupKey(s) == GroupKey(t) && |s.upstream| > |t.upstream| <==> Shifted(s, t)
  {
    var key := GroupKey(s);
    if |s.upstream| > |t.upstream| {
      var front, rest := s.upstream[..|t.upstream|], s.upstream[|t.upstream| + 1..];
      assert s.upstream == front + [s.upstream[|t.upstream|]] + rest;
      assert key[..|t.upstream|] == front && key[|t.upstream|] == s.upstream[|t.upstream|];
      assert key[|t.upstream| + 1..] == rest + [0] + s.recipient;
      assert GroupKey(t)[..|t.upstream|] == t.upstream && GroupKey(t)[|t.upstream|] == 0;
      assert GroupKey(t)[|t.upstream| + 1..] == t.recipient;
    }
  }

  /**
   Submissions are put together exactly when upstream and recipient agree, or one upstream name
   has a NUL in it at which the other splits the same key.
   */
  lemma GroupKeyExact(s: Submission, t: Submission)
    ensures GroupKey(s) == GroupKey(t) <==> SameGroup(s, t) || Shifted(s, t) || Shifted(t, s)
    ensures 0 !in s.upstream && 0 !in t.upstream ==> (GroupKey(s) == GroupKey(t) <==> SameGroup(s, t))
  {
    ShiftedCollides(s, t);
    ShiftedCollides(t, s);
    if GroupKey(s) == GroupKey(t) && |s.upstream| == |t.upstream| {
      assert GroupKey(s)[..|s.upstream|] == s.upstream && GroupKey(t)[..|t.upstream|] == t.upstream;
      assert GroupKey(s)[|s.upstream| + 1..] == s.recipient && GroupKey(t)[|t.upstream| + 1..] == t.recipient;
    }
    assert Shifted(s, t) ==> 0 in s.upstream;
    assert Shifted(t, s) ==> 0 in t.upstream;
  }

  /** With a NUL in an upstream name two groups can be taken for one. */
  lemma GroupKeyCollides(s: Submission)
    ensures var a, b := s.(upstream := [0x61, 0, 0x62], recipient := [0x63]),
            s.(upstream := [0x61], recipient := [0x62, 0, 0x63]);
            !SameGroup(a, b) && GroupKey(a) == GroupKey(b)
  {
    var a, b := s.(upstream := [0x61, 0, 0x62], recipient := [0x63]),
        s.(upstream := [0x61], recipient := [0x62, 0, 0x63]);
    assert GroupKey(a) == [0x61, 0, 0x62, 0, 0x63] == GroupKey(b);
  }

  function Upto(n: nat): (r: set<int>)
    ensures forall i :: i in r <==> 0 <= i < n
  {
    if n == 0 then {} else Upto(n - 1) + {n - 1}
  }

  lemma {:induction false} UptoSize(n: nat)
    ensures |Upto(n)| == n
  {
    if n > 0 {
      UptoSize(n - 1);
    }
  }

  lemma SubsetSize<T>(a: set<T>, b: set<T>)
    requires a <= b
    ensures |a| <= |b| && (|a| == |b| ==> a == b)
  {
    assert b == a + (b - a);
    assert |b| == |a| + |b - a|;
  }

  /** Counting distinct indices is enough: if they are in range, a full group has every one of 0..n-1. */
  lemma FullMeansEveryIndex(subs: set<Submission>, key: text, n: nat)
    requires n > 0 && IsLargest(subs, key, n)
    requires forall s | s in subs && GroupKey(s) == key :: 0 <= s.segmentIndex < n
    ensures Full(subs, key) <==> DeliveredIndices(subs, key) == Upto(n)
  {
    hide GroupKey;
    UptoSize(n);
    SubsetSize(DeliveredIndices(subs, key), Upto(n));
  }

  ghost predicate HasIndex(subs: set<Submission>, key: text, i: int) {
    exists t :: t in subs && GroupKey(t) == key && t.segmentIndex == i
  }

  /** Every group has one submission for each of 0..n-1, where n is the count they all state. */
  ghost predicate Complete(subs: set<Submission>) {
    && (forall s | s in subs :: 0 <= s.segmentIndex < s.segmentCount)
    && (forall s, t | s in subs && t in subs && GroupKey(s) == GroupKey(t) ::
          s.segmentCount == t.segmentCount && (s.segmentIndex == t.segmentIndex ==> s == t))
    && (forall s, i | s in subs && 0 <= i < s.segmentCount :: HasIndex(subs, GroupKey(s), i))
  }

  lemma FullGroupAllDelivered(subs: set<Submission>, s: Submission)
    requires Complete(subs) && s in subs
    ensures Full(subs, GroupKey(s)) <==> forall t | t in subs && GroupKey(t) == GroupKey(s) :: t.state == Delivered
  {
    hide GroupKey, Full;
    var key, n := GroupKey(s), s.segmentCount;
    assert IsLargest(subs, key, n);
    FullMeansEveryIndex(subs, key, n);
    if Full(subs, key) {
      forall t | t in subs && GroupKey(t) == key ensures t.state == Delivered {
        assert t.segmentIndex in DeliveredIndices(subs, key);
      }
    }
    if forall t | t in subs && GroupKey(t) == key :: t.state == Delivered {
      forall i | 0 <= i < n ensures i in DeliveredIndices(subs, key) {
        assert HasIndex(subs, GroupKey(s), i);
      }
      assert DeliveredIndices(subs, key) == Upto(n);
    }
  }

  lemma AllFullAllDelivered(subs: set<Submission>)
    requires Complete(subs)
    ensures (forall k | k in GroupKeys(subs) :: Full(subs, k)) <==> (forall s | s in subs :: s.state == Delivered)
  {
    hide GroupKey, Full, Complete;
    if forall k | k in GroupKeys(subs) :: Full(subs, k) {
      forall s | s in subs ensures s.state == Delivered {
        assert GroupKey(s) in GroupKeys(subs);
        FullGroupAllDelivered(subs, s);
      }
    }
    if forall s | s in subs :: s.state == Delivered {
      forall k | k in GroupKeys(subs) ensures Full(subs, k) {
        var s :| s in subs && GroupKey(s) == k;
        FullGroupAllDelivered(subs, s);
      }
    }
  }

  /** The aggregate of completely recorded submissions: unreachable iff one failed, delivered iff all were. */
  lemma AggregateOfComplete(subs: set<Submission>)
    requires Complete(subs)
    ensures Aggregate(subs) == Some(Unreachable) <==> exists s :: s in subs && s.state == Failed
    ensures Aggregate(subs) == Some(DeliveredStatus) <==> subs != {} && forall s | s in subs :: s.state == Delivered
    ensures Aggregate(subs) in {None, Some(Unreachable), Some(DeliveredStatus)}
  {
    AllFullAllDelivered(subs);
    hide GroupKeys, Full, Complete;
    if subs != {} && AnyFailed(subs) {
      var s :| s in subs && s.state == Failed;
      assert s.state != Delivered;
    }
  }

  // ---------------------------------------------------------------------- runs

  /** The tables after a run of receipts. */
  ghost function After(db: Db, events: seq<Event>): Db {
    if events == [] then db else Handle(After(db, events[..|events| - 1]), events[|events| - 1]).0
  }

  predicate Addressed(e: Event, key: Key) {
    e.receipt.id != [] && KeyOf(e) == key
  }

  /** What the latest receipt for a submission said, `initial` before the first. */
  function Latest(initial: SubmissionState, events: seq<Event>, key: Key): SubmissionState {
    if events == [] then initial
    else
      var last := events[|events| - 1];
      if Addressed(last, key) then MapReceiptStatus(last.receipt).0
      else Latest(initial, events[..|events| - 1], key)
  }

  /** The word of the latest receipt for a submission, without the space around it. */
  function LatestWord(events: seq<Event>, key: Key): Option<text> {
    if events == [] then None
    else
      var last := events[|events| - 1];
      if last.receipt.id == key.remoteID != [] && last.upstream == key.upstream then Some(TrimSpace(last.receipt.stat))
      else LatestWord(events[..|events| - 1], key)
  }

  /** Failed by the word of its latest receipt, or before the first as it was recorded. */
  predicate LastFailed(initial: SubmissionState, events: seq<Event>, key: Key) {
    match LatestWord(events, key) case Some(word) => SaysFailed(word) case None => initial == Failed
  }

  predicate LastDelivered(initial: SubmissionState, events: seq<Event>, key: Key) {
    match LatestWord(events, key) case Some(word) => SaysDelivered(word) case None => initial == Delivered
  }

  lemma {:induction false} LatestByWord(initial: SubmissionState, events: seq<Event>, key: Key)
    ensures Latest(initial, events, key) == Failed <==> LastFailed(initial, events, key)
    ensures Latest(initial, events, key) == Delivered <==> LastDelivered(initial, events, key)
  {
    hide MapReceiptStatus, SaysFailed, SaysDelivered;
    if events != [] {
      ReceiptStates(events[|events| - 1].receipt);
      LatestByWord(initial, events[..|events| - 1], key);
    }
  }

  /** A submission as it was recorded: all but what receipts change. */
  predicate SameRecord(s: Submission, t: Submission) {
    s.(state := t.state, errorText := t.errorText) == t
  }

  /** Receipts only ever change states and error texts, and the state is what the latest receipt said. */
  lemma {:induction false} StateIsLatest(db: Db, events: seq<Event>, k: Key)
    ensures k in After(db, events).submissions <==> k in db.submissions
    ensures k in db.submissions ==>
              && SameRecord(db.submissions[k], After(db, events).submissions[k])
              && After(db, events).submissions[k].state == Latest(db.submissions[k].state, events, k)
    decreases |events|
  {
    hide MapReceiptStatus, Aggregate, SubmissionsOf;
    if events != [] {
      StateIsLatest(db, events[..|events| - 1], k);
    }
  }

  predicate Of(submissions: map<Key, Submission>, k: Key, m: text) {
    k in submissions && submissions[k].messageID == m
  }

  /** Some row of the message, of the same group as row k, has index i. */
  ghost predicate RowWithIndex(submissions: map<Key, Submission>, m: text, k: Key, i: int)
    requires k in submissions
  {
    exists j :: Of(submissions, j, m) && GroupKey(submissions[j]) == GroupKey(submissions[k])
      && submissions[j].segmentIndex == i
  }

  /** Rows state an index within a count, and the rows of a group state the same count. */
  ghost predicate CountsAgree(submissions: map<Key, Submission>, m: text) {
    && (forall k | Of(submissions, k, m) :: 0 <= submissions[k].segmentIndex < submissions[k].segmentCount)
    && (forall j, k | Of(submissions, j, m) && Of(submissions, k, m)
         && GroupKey(submissions[j]) == GroupKey(submissions[k]) ::
          submissions[j].segmentCount == submissions[k].segmentCount)
  }

  /** Every group of the message that has a row has one for each of its segments. */
  ghost predicate Covered(submissions: map<Key, Submission>, m: text) {
    forall k, i | Of(submissions, k, m) && 0 <= i < submissions[k].segmentCount :: RowWithIndex(submissions, m, k, i)
  }

  /** And only one. */
  ghost predicate GroupsWhole(submissions: map<Key, Submission>, m: text) {
    && CountsAgree(submissions, m) && Covered(submissions, m)
    && forall j, k | Of(submissions, j, m) && Of(submissions, k, m)
         && GroupKey(submissions[j]) == GroupKey(submissions[k])
         && submissions[j].segmentIndex == submissions[k].segmentIndex :: j == k
  }

  lemma GroupsWholeComplete(submissions: map<Key, Submission>, m: text)
    requires GroupsWhole(submissions, m)
    ensures Complete(SubmissionsOf(submissions, m))
  {
    hide GroupKey;
    var subs := SubmissionsOf(submissions, m);
    forall s, t | s in subs && t in subs && GroupKey(s) == GroupKey(t)
      ensures s.segmentCount == t.segmentCount && (s.segmentIndex == t.segmentIndex ==> s == t)
    {
      var j :| Of(submissions, j, m) && submissions[j] == s;
      var k :| Of(submissions, k, m) && submissions[k] == t;
    }
    forall s | s in subs ensures 0 <= s.segmentIndex < s.segmentCount {
      var k :| Of(submissions, k, m) && submissions[k] == s;
    }
    forall s, i | s in subs && 0 <= i < s.segmentCount ensures HasIndex(subs, GroupKey(s), i) {
      var k :| Of(submissions, k, m) && submissions[k] == s;
      assert RowWithIndex(submissions, m, k, i);
      var j :| Of(submissions, j, m) && GroupKey(submissions[j]) == GroupKey(s) && submissions[j].segmentIndex == i;
      assert submissions[j] in subs;
    }
  }

  lemma ReceiptsKeepGroups(db: Db, events: seq<Event>, m: text)
    requires GroupsWhole(db.submissions, m)
    ensures GroupsWhole(After(db, events).submissions, m)
  {
    hide After, Latest, GroupKey;
    var later := After(db, events).submissions;
    forall k
      ensures Of(later, k, m) <==> Of(db.submissions, k, m)
      ensures k in later <==> k in db.submissions
      ensures k in later ==>
              SameRecord(db.submissions[k], later[k]) && GroupKey(later[k]) == GroupKey(db.submissions[k])
    {
      StateIsLatest(db, events, k);
      assert k in later ==>
             GroupKey(later[k]) == GroupKey(db.submissions[k]) by { SameGroupKey(db.submissions, later, k); }
    }
    forall k, i | Of(later, k, m) && 0 <= i < later[k].segmentCount ensures RowWithIndex(later, m, k, i) {
      assert RowWithIndex(db.submissions, m, k, i);
      var j :| Of(db.submissions, j, m) && GroupKey(db.submissions[j]) == GroupKey(db.submissions[k])
          && db.submissions[j].segmentIndex == i;
      assert Of(later, j, m);
    }
  }

  lemma SameGroupKey(a: map<Key, Submission>, b: map<Key, Submission>, k: Key)
    ensures k in a && k in b && SameRecord(a[k], b[k]) ==> GroupKey(a[k]) == GroupKey(b[k])
  {
  }

  /** The verdict on a message after a run. */
  ghost function Verdict(db: Db, events: seq<Event>, m: text): Option<Status> {
    Aggregate(SubmissionsOf(After(db, events).submissions, m))
  }

  /** Some row of the group of row k has index i, and the latest receipt for it delivered it. */
  ghost predicate SegmentDelivered(db: Db, events: seq<Event>, m: text, k: Key, i: int)
    requires k in db.submissions
  {
    exists j :: Of(db.submissions, j, m) && GroupKey(db.submissions[j]) == GroupKey(db.submissions[k])
      && db.submissions[j].segmentIndex == i && Latest(db.submissions[j].state, events, j) == Delivered
  }

  /** Every segment of every group that has a row was delivered, under some row. */
  ghost predicate EverySegment(db: Db, events: seq<Event>, m: text) {
    forall k, i | Of(db.submissions, k, m) && 0 <= i < db.submissions[k].segmentCount ::
      SegmentDelivered(db, events, m, k, i)
  }

  ghost predicate SomeRowFailed(db: Db, events: seq<Event>, m: text) {
    exists k :: Of(db.submissions, k, m) && Latest(db.submissions[k].state, events, k) == Failed
  }

  /** The rows of a message after any receipts, as a set. */
  lemma LaterRows(db: Db, events: seq<Event>, m: text)
    ensures var later := After(db, events).submissions;
            var subs := SubmissionsOf(later, m);
            && (forall j :: Of(later, j, m) <==> Of(db.submissions, j, m))
            && (forall j | Of(db.submissions, j, m) ::
                  && later[j] in subs && SameRecord(db.submissions[j], later[j])
                  && GroupKey(later[j]) == GroupKey(db.submissions[j])
                  && later[j].state == Latest(db.submissions[j].state, events, j))
            && (forall s | s in subs :: exists j :: Of(db.submissions, j, m) && later[j] == s)
  {
    hide After, Latest, GroupKey;
    var later := After(db, events).submissions;
    var subs := SubmissionsOf(later, m);
    forall j
      ensures Of(later, j, m) <==> Of(db.submissions, j, m)
      ensures Of(later, j, m) ==>
                && SameRecord(db.submissions[j], later[j]) && GroupKey(later[j]) == GroupKey(db.submissions[j])
                && later[j] in subs && later[j].state == Latest(db.submissions[j].state, events, j)
    {
      StateIsLatest(db, events, j);
      SameGroupKey(db.submissions, later, j);
    }
    assert forall s | s in subs :: exists j :: Of(later, j, m) && later[j] == s;
  }

  /** A segment is among the delivered ones of its group exactly when some row of it was delivered last. */
  lemma DeliveredByIndex(db: Db, events: seq<Event>, m: text, k: Key, i: int)
    requires Of(db.submissions, k, m)
    ensures i in DeliveredIndices(SubmissionsOf(After(db, events).submissions, m), GroupKey(db.submissions[k])) <==>
            SegmentDelivered(db, events, m, k, i)
  {
    LaterRows(db, events, m);
    hide After, Latest, GroupKey;
    var later := After(db, events).submissions;
    var subs := SubmissionsOf(later, m);
    if i in DeliveredIndices(subs, GroupKey(db.submissions[k])) {
      var s :| s in subs && GroupKey(s) == GroupKey(db.submissions[k]) && s.state == Delivered && s.segmentIndex == i;
      var j :| Of(db.submissions, j, m) && later[j] == s;
    }
    if SegmentDelivered(db, events, m, k, i) {
      var j :| Of(db.submissions, j, m) && GroupKey(db.submissions[j]) == GroupKey(db.submissions[k])
               && db.submissions[j].segmentIndex == i && Latest(db.submissions[j].state, events, j) == Delivered;
      assert later[j] in subs;
    }
  }

  lemma RangeByIndex(db: Db, events: seq<Event>, m: text, k: Key)
    requires CountsAgree(db.submissions, m) && Of(db.submissions, k, m)
    ensures var subs := SubmissionsOf(After(db, events).submissions, m);
            var key, n := GroupKey(db.submissions[k]), db.submissions[k].segmentCount;
            && n > 0 && IsLargest(subs, key, n) && forall s | s in subs && GroupKey(s) == key :: 0 <= s.segmentIndex < n
  {
    LaterRows(db, events, m);
    hide After, Latest, GroupKey;
    var later := After(db, events).submissions;
    assert later[k] in SubmissionsOf(later, m);
  }

  /** One group, after any receipts. */
  lemma FullByIndex(db: Db, events: seq<Event>, m: text, k: Key)
    requires CountsAgree(db.submissions, m) && Of(db.submissions, k, m)
    ensures Full(SubmissionsOf(After(db, events).submissions, m), GroupKey(db.submissions[k])) <==>
            forall i | 0 <= i < db.submissions[k].segmentCount :: SegmentDelivered(db, events, m, k, i)
  {
    hide After, Latest, GroupKey, Full, SegmentDelivered, CountsAgree, IsLargest, DeliveredIndices;
    var subs := SubmissionsOf(After(db, events).submissions, m);
    var key, n := GroupKey(db.submissions[k]), db.submissions[k].segmentCount;
    RangeByIndex(db, events, m, k);
    FullMeansEveryIndex(subs, key, n);
    forall i ensures i in DeliveredIndices(subs, key) <==> SegmentDelivered(db, events, m, k, i) {
      DeliveredByIndex(db, events, m, k, i);
    }
    IndicesInRange(subs, key, n);
  }

  lemma IndicesInRange(subs: set<Submission>, key: text, n: int)
    requires forall s | s in subs && GroupKey(s) == key :: 0 <= s.segmentIndex < n
    ensures forall i | i in DeliveredIndices(subs, key) :: 0 <= i < n
  {
  }

  /**
   The verdict after any receipts, for whatever rows there are: unreachable iff the latest receipt of
   some row failed it; delivered iff there are rows, none failed, and every segment of every group
   that has a row was delivered under some row.
   */
  lemma VerdictByIndex(db: Db, events: seq<Event>, m: text)
    requires CountsAgree(db.submissions, m)
    ensures Verdict(db, events, m) == Some(Unreachable) <==> SomeRowFailed(db, events, m)
    ensures Verdict(db, events, m) == Some(DeliveredStatus) <==>
            (exists k :: Of(db.submissions, k, m)) && !SomeRowFailed(db, events, m) && EverySegment(db, events, m)
  {
    hide After, Latest, GroupKey, Full, CountsAgree, SegmentDelivered;
    LaterRows(db, events, m);
    var later := After(db, events).submissions;
    var subs := SubmissionsOf(later, m);
    forall k | Of(db.submissions, k, m)
      ensures GroupKey(db.submissions[k]) in GroupKeys(subs)
      ensures Full(subs, GroupKey(db.submissions[k])) <==>
              forall i | 0 <= i < db.submissions[k].segmentCount :: SegmentDelivered(db, events, m, k, i)
    {
      FullByIndex(db, events, m, k);
    }
    forall key | key in GroupKeys(subs)
      ensures exists k :: Of(db.submissions, k, m) && GroupKey(db.submissions[k]) == key {
      var s :| s in subs && GroupKey(s) == key;
      var j :| Of(db.submissions, j, m) && later[j] == s;
    }
    assert AnyFailed(subs) <==> SomeRowFailed(db, events, m);
  }

  // ------------------------------------------------------- what can be delivered

  /** Some receipts, and these rows, make the message delivered. */
  ghost predicate Deliverable(db: Db, m: text) {
    exists events: seq<Event> :: Verdict(db, events, m) == Some(DeliveredStatus)
  }

  function DeliveredEvent(k: Key): Event {
    Event(k.upstream, Receipt(k.remoteID, Ascii("DELIVRD"), []), None)
  }

  function DeliveredEvents(keys: seq<Key>): seq<Event> {
    if keys == [] then [] else DeliveredEvents(keys[..|keys| - 1]) + [DeliveredEvent(keys[|keys| - 1])]
  }

  lemma DelivrdDelivers(id: text)
    ensures MapReceiptStatus(Receipt(id, Ascii("DELIVRD"), [])).0 == Delivered
  {
    var t := Ascii("DELIVRD");
    assert IsTrimmed(t) && EqualFold(t, t);
    TrimSpaceShape(t);
    ReceiptStates(Receipt(id, t, []));
  }

  lemma {:induction false} LatestOfDelivered(keys: seq<Key>, k: Key, initial: SubmissionState)
    requires k in keys && k.remoteID != []
    ensures Latest(initial, DeliveredEvents(keys), k) == Delivered
  {
    hide MapReceiptStatus;
    var init, last := keys[..|keys| - 1], keys[|keys| - 1];
    assert keys == init + [last];
    var events := DeliveredEvents(keys);
    assert events[|events| - 1] == DeliveredEvent(last) && events[..|events| - 1] == DeliveredEvents(init);
    DelivrdDelivers(last.remoteID);
    assert KeyOf(DeliveredEvent(last)) == last;
    if k != last { LatestOfDelivered(init, k, initial); }
  }

  /** With a delivered receipt for every row, all segments that have a row are delivered. */
  lemma DeliveringAll(db: Db, m: text) returns (events: seq<Event>)
    requires forall k | Of(db.submissions, k, m) :: k.remoteID != []
    ensures !SomeRowFailed(db, events, m)
    ensures Covered(db.submissions, m) ==> EverySegment(db, events, m)
  {
    hide Latest, GroupKey, DeliveredEvents;
    var keys := Listing(db.submissions.Keys);
    events := DeliveredEvents(keys);
    assert forall k :: k in (set x | x in keys) <==> k in db.submissions.Keys;
    forall k | Of(db.submissions, k, m) ensures Latest(db.submissions[k].state, events, k) == Delivered {
      LatestOfDelivered(keys, k, db.submissions[k].state);
    }
    if Covered(db.submissions, m) {
      forall k, i | Of(db.submissions, k, m) && 0 <= i < db.submissions[k].segmentCount
        ensures SegmentDelivered(db, events, m, k, i)
      {
        assert RowWithIndex(db.submissions, m, k, i);
      }
    }
  }

  /** A message can ever be delivered exactly when it has rows and every group that has one has all of its segments. */
  lemma DeliverableIff(db: Db, m: text)
    requires CountsAgree(db.submissions, m) && forall k | Of(db.submissions, k, m) :: k.remoteID != []
    ensures Deliverable(db, m) <==> (exists k :: Of(db.submissions, k, m)) && Covered(db.submissions, m)
  {
    hide Verdict, Latest, GroupKey, CountsAgree, SomeRowFailed;
    if events: seq<Event> :| Verdict(db, events, m) == Some(DeliveredStatus) {
      VerdictByIndex(db, events, m);
      forall k, i | Of(db.submissions, k, m) && 0 <= i < db.submissions[k].segmentCount
        ensures RowWithIndex(db.submissions, m, k, i)
      {
        assert SegmentDelivered(db, events, m, k, i);
      }
    }
    var events := DeliveringAll(db, m);
    VerdictByIndex(db, events, m);
  }

  /**
   With whole groups, the verdict after any receipts is: unreachable iff the
   latest receipt of some submission failed it, delivered iff the latest of each delivered it.
   */
  lemma VerdictIsLatest(db: Db, events: seq<Event>, m: text)
    requires GroupsWhole(db.submissions, m) && exists k :: Of(db.submissions, k, m)
    ensures Verdict(db, events, m) == Some(Unreachable) <==>
            exists k :: Of(db.submissions, k, m) && Latest(db.submissions[k].state, events, k) == Failed
    ensures Verdict(db, events, m) == Some(DeliveredStatus) <==>
            forall k | Of(db.submissions, k, m) :: Latest(db.submissions[k].state, events, k) == Delivered
    ensures Verdict(db, events, m) in {None, Some(Unreachable), Some(DeliveredStatus)}
  {
    hide GroupsWhole, After, Latest, Aggregate, Complete;
    var later := After(db, events).submissions;
    var subs := SubmissionsOf(later, m);
    ReceiptsKeepGroups(db, events, m);
    GroupsWholeComplete(later, m);
    AggregateOfComplete(subs);
    forall k
      ensures Of(later, k, m) <==> Of(db.submissions, k, m)
      ensures Of(later, k, m) ==> later[k] in subs && later[k].state == Latest(db.submissions[k].state, events, k)
    {
      StateIsLatest(db, events, k);
    }
    assert forall s | s in subs :: exists k :: Of(later, k, m) && later[k] == s;
  }

  lemma MissingIndexNotFull(subs: set<Submission>, key: text, n: nat, i: nat)
    requires n > 0 && IsLargest(subs, key, n) && i < n
    requires forall s | s in subs && GroupKey(s) == key :: 0 <= s.segmentIndex < n
    requires !HasIndex(subs, key, i)
    ensures !Full(subs, key)
  {
    hide GroupKey;
    FullMeansEveryIndex(subs, key, n);
    assert i in Upto(n) && i !in DeliveredIndices(subs, key);
  }

  /** A segment that was never recorded keeps the message from being delivered, whatever receipts come. */
  lemma MissingSegmentBlocks(db: Db, events: seq<Event>, m: text, k: Key, i: nat)
    requires Of(db.submissions, k, m) && i < db.submissions[k].segmentCount
    requires forall j | Of(db.submissions, j, m) && GroupKey(db.submissions[j]) == GroupKey(db.submissions[k]) ::
               0 <= db.submissions[j].segmentIndex < db.submissions[j].segmentCount == db.submissions[k].segmentCount
    requires !RowWithIndex(db.submissions, m, k, i)
    ensures Verdict(db, events, m) != Some(DeliveredStatus)
  {
    hide After, Latest, GroupKey, Full;
    var later := After(db, events).submissions;
    var subs := SubmissionsOf(later, m);
    var key, n := GroupKey(db.submissions[k]), db.submissions[k].segmentCount;
    forall j ensures Of(later, j, m) <==> Of(db.submissions, j, m)
      ensures Of(later, j, m) ==>
                SameRecord(db.submissions[j], later[j]) && GroupKey(later[j]) == GroupKey(db.submissions[j])
                  && later[j] in subs
    {
      StateIsLatest(db, events, j);
      SameGroupKey(db.submissions, later, j);
    }
    assert forall s | s in subs :: exists j :: Of(later, j, m) && later[j] == s;
    assert later[k] in subs && GroupKey(later[k]) == key && key in GroupKeys(subs);
    MissingIndexNotFull(subs, key, n, i);
  }

  predicate Touches(db: Db, e: Event, m: text) {
    e.receipt.id != [] && Of(db.submissions, KeyOf(e), m)
  }

  /** The last verdict given on a message by a receipt for one of its submissions. */
  ghost function LastVerdict(db: Db, events: seq<Event>, m: text): Option<Status> {
    if events == [] then None
    else if Touches(db, events[|events| - 1], m) && Verdict(db, events, m).Some? then Verdict(db, events, m)
    else LastVerdict(db, events[..|events| - 1], m)
  }

  /** One step of a run, as seen from one message. */
  lemma StepOnMessage(db: Db, events: seq<Event>, m: text)
    requires events != [] && m in After(db, events[..|events| - 1]).statuses
    ensures var e := events[|events| - 1];
            var before, after := After(db, events[..|events| - 1]), After(db, events);
            && m in after.statuses
            && after.statuses[m] ==
                 (if Touches(db, e, m) && Verdict(db, events, m).Some? then Verdict(db, events, m).value
                  else before.statuses[m])
            && multiset(after.attempts)[m] == multiset(before.attempts)[m] +
                 (if e.reporter.Some? && before.statuses[m] != Unreachable && after.statuses[m] == Unreachable
                  then 1 else 0)
  {
    hide MapReceiptStatus, Aggregate, SubmissionsOf;
    var e := events[|events| - 1];
    var before := After(db, events[..|events| - 1]);
    StateIsLatest(db, events[..|events| - 1], KeyOf(e));
  }

  /** The status of a message is the last verdict on it, or what it was before any. */
  lemma {:induction false} StatusIsLastVerdict(db: Db, events: seq<Event>, m: text)
    requires m in db.statuses
    ensures m in After(db, events).statuses
    ensures After(db, events).statuses[m] ==
            (match LastVerdict(db, events, m) case Some(status) => status case None => db.statuses[m])
    decreases |events|
  {
    hide Handle, Verdict, Touches;
    if events != [] {
      StatusIsLastVerdict(db, events[..|events| - 1], m);
      StepOnMessage(db, events, m);
    }
  }

  /**
   With whole groups, a receipt for a message makes it unreachable iff the latest receipt of some
   submission says one of the words of failure, delivered iff the latest of each says DELIVRD, and
   leaves its status alone otherwise. A submission without a receipt counts as it was recorded.
   */
  lemma StatusAfterReceipt(db: Db, events: seq<Event>, m: text)
    requires m in db.statuses && GroupsWhole(db.submissions, m)
    requires events != [] && Touches(db, events[|events| - 1], m)
    ensures m in After(db, events[..|events| - 1]).statuses && m in After(db, events).statuses
    ensures After(db, events).statuses[m] ==
            if exists k :: Of(db.submissions, k, m) && LastFailed(db.submissions[k].state, events, k)
                then Unreachable
            else if forall k | Of(db.submissions, k, m) ::
                LastDelivered(db.submissions[k].state, events, k) then DeliveredStatus
            else After(db, events[..|events| - 1]).statuses[m]
  {
    hide After, Latest, GroupsWhole, Verdict, LastFailed, LastDelivered;
    forall k | Of(db.submissions, k, m)
      ensures Latest(db.submissions[k].state, events, k) == Failed <==>
              LastFailed(db.submissions[k].state, events, k)
      ensures Latest(db.submissions[k].state, events, k) == Delivered <==>
              LastDelivered(db.submissions[k].state, events, k)
    {
      LatestByWord(db.submissions[k].state, events, k);
    }
    StatusIsLastVerdict(db, events[..|events| - 1], m);
    StepOnMessage(db, events, m);
    assert Of(db.submissions, KeyOf(events[|events| - 1]), m);
    VerdictIsLatest(db, events, m);
  }

  /** How often a message entered the unreachable status. */
  ghost function Entries(db: Db, events: seq<Event>, m: text): nat
    requires m in db.statuses
    decreases |events|
  {
    if events == [] then 0
    else
      var init := events[..|events| - 1];
      StatusIsLastVerdict(db, init, m);
      StatusIsLastVerdict(db, events, m);
      Entries(db, init, m) +
      if After(db, init).statuses[m] != Unreachable && After(db, events).statuses[m] == Unreachable then 1 else 0
  }

  /** A failure is reported once each time a message becomes unreachable, and at no other time. */
  lemma {:induction false} ReportsAreEntries(db: Db, events: seq<Event>, m: text)
    requires m in db.statuses && forall e | e in events :: e.reporter.Some?
    ensures multiset(After(db, events).attempts)[m] == multiset(db.attempts)[m] + Entries(db, events, m)
    decreases |events|
  {
    if events != [] {
      ReportsAreEntries(db, events[..|events| - 1], m);
      StatusIsLastVerdict(db, events[..|events| - 1], m);
      StepOnMessage(db, events, m);
    }
  }

  // ---------------------------------------------------------------- recipients

  ghost predicate HasRow(submissions: map<Key, Submission>, m: text, recipient: text) {
    exists k :: Of(submissions, k, m) && submissions[k].recipient == recipient
  }

  /** All segments of all these recipients of the message are recorded. */
  ghost predicate AllRecorded(submissions: map<Key, Submission>, m: text, recipients: set<text>) {
    Covered(submissions, m) && forall r | r in recipients :: HasRow(submissions, m, r)
  }

  /** Each of the recipients has rows, and every segment of these was delivered under some row. */
  ghost predicate ReachedAll(db: Db, events: seq<Event>, m: text, recipients: set<text>) {
    forall r | r in recipients ::
      && HasRow(db.submissions, m, r)
      && forall k, i | Of(db.submissions, k, m) && db.submissions[k].recipient == r
           && 0 <= i < db.submissions[k].segmentCount ::
           SegmentDelivered(db, events, m, k, i)
  }

  /**
   A delivered message reached all its recipients exactly when each of them has a row; and when
   each of them has one, and nobody else, it is delivered exactly when it reached them all and no
   row failed.
   */
  lemma DeliveredToAll(db: Db, events: seq<Event>, m: text, recipients: set<text>)
    requires CountsAgree(db.submissions, m)
    ensures Verdict(db, events, m) == Some(DeliveredStatus) ==>
              (ReachedAll(db, events, m, recipients) <==> forall r | r in recipients :: HasRow(db.submissions, m, r))
    ensures recipients != {} && (forall r | r in recipients :: HasRow(db.submissions, m, r))
            && (forall k | Of(db.submissions, k, m) :: db.submissions[k].recipient in recipients) ==>
              (Verdict(db, events, m) == Some(DeliveredStatus) <==>
               ReachedAll(db, events, m, recipients) && !SomeRowFailed(db, events, m))
  {
    hide CountsAgree, Latest, Verdict, SegmentDelivered;
    VerdictByIndex(db, events, m);
    if recipients != {} && forall r | r in recipients :: HasRow(db.submissions, m, r) {
      var r :| r in recipients;
      assert HasRow(db.submissions, m, r);
    }
  }

  lemma NoRowsNoVerdict(db: Db, events: seq<Event>, m: text)
    requires forall k :: !Of(db.submissions, k, m)
    ensures Verdict(db, events, m) == None
  {
    hide After, Latest;
    var later := After(db, events).submissions;
    forall k | k in later ensures later[k].messageID != m {
      assert !Of(db.submissions, k, m);
      StateIsLatest(db, events, k);
    }
    assert SubmissionsOf(later, m) == {};
  }
}
