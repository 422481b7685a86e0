/**
 What tracking the segments of a message leaves in the submissions table, and
 what that means for its delivery. A row belongs to an upstream and the message
 ID it gave; the last segment tracked under an ID has the row.
 */
module Tracking {
  import opened Bytes
  import opened Receipts
  import opened ReceiptRuns
  import Submit

  /** One tracked segment, with the upstream that took it and the recipient it is for. */
  datatype Entry = Entry(upstream: text, recipient: text, t: Submit.Tracked)

  /** The table after tracking segments of a message one by one, of whatever pushes they are. */
  function RecordAll(submissions: map<Key, Submission>, m: text, entries: seq<Entry>): map<Key, Submission> {
    if entries == [] then submissions
    else
      var last := entries[|entries| - 1];
      Tracking(RecordAll(submissions, m, entries[..|entries| - 1]), last.upstream, m, last.recipient, last.t)
  }

  function KeyOfEntry(e: Entry): Key {
    Key(e.upstream, e.t.remoteID)
  }

  /** Tracked under an ID, and not refused. */
  predicate Kept(e: Entry) {
    e.upstream != [] && e.recipient != [] && e.t.remoteID != []
  }

  /** The last segment kept under this key, if any. */
  function LastKept(entries: seq<Entry>, k: Key): (i: int)
    ensures -1 <= i < |entries|
    ensures i >= 0 ==> Kept(entries[i]) && KeyOfEntry(entries[i]) == k
    ensures forall j | i < j < |entries| :: !(Kept(entries[j]) && KeyOfEntry(entries[j]) == k)
  {
    if entries == [] then -1
    else
      var last := entries[|entries| - 1];
      if Kept(last) && KeyOfEntry(last) == k then |entries| - 1 else LastKept(entries[..|entries| - 1], k)
  }

  /** A segment that has a row in the end: no later one was tracked under its ID. */
  predicate Survives(entries: seq<Entry>, j: nat) {
    j < |entries| && LastKept(entries, KeyOfEntry(entries[j])) == j
  }

  function RowOf(m: text, e: Entry): Submission {
    Row(e.upstream, m, e.recipient, e.t)
  }

  function GroupOf(e: Entry): text {
    e.upstream + [0] + e.recipient
  }

  /** A row is that of the last segment kept under its key, or was there before. */
  lemma {:induction false} RecordAllAt(submissions: map<Key, Submission>, m: text, entries: seq<Entry>, k: Key)
    requires m != [] && forall j | 0 <= j < |entries| :: entries[j].t.count > 0
    ensures var r, i := RecordAll(submissions, m, entries), LastKept(entries, k);
            if i >= 0 then k in r && r[k] == RowOf(m, entries[i])
            else (k in r <==> k in submissions) && (k in r ==> r[k] == submissions[k])
    decreases |entries|
  {
    if entries != [] { RecordAllAt(submissions, m, entries[..|entries| - 1], k); }
  }

  /** Segments of one push, cut into n: to whatever recipients, once or again, completely or not. */
  predicate OfOnePush(entries: seq<Entry>, n: nat) {
    forall j | 0 <= j < |entries| :: 0 <= entries[j].t.index < n == entries[j].t.count
  }

  /** The rows of a message that had none are those of the segments that survive. */
  lemma RowsAreSurvivors(submissions: map<Key, Submission>, m: text, entries: seq<Entry>, n: nat)
    requires m != [] && OfOnePush(entries, n) && forall k :: !Of(submissions, k, m)
    ensures var r := RecordAll(submissions, m, entries);
            && (forall k | Of(r, k, m) ::
                  var i := LastKept(entries, k);
                  i >= 0 && Survives(entries, i) && r[k] == RowOf(m, entries[i]) && k == KeyOfEntry(entries[i]))
            && (forall j: nat | Survives(entries, j) ::
                  Of(r, KeyOfEntry(entries[j]), m) && r[KeyOfEntry(entries[j])] == RowOf(m, entries[j]))
  {
    hide RecordAll;
    var r := RecordAll(submissions, m, entries);
    forall k
      ensures var i := LastKept(entries, k);
              if i >= 0 then k in r && r[k] == RowOf(m, entries[i])
              else (k in r <==> k in submissions) && (k in r ==> r[k] == submissions[k])
    {
      RecordAllAt(submissions, m, entries, k);
    }
    forall k | Of(r, k, m) ensures LastKept(entries, k) >= 0 {
      assert !Of(submissions, k, m);
    }
  }

  /** Some segment that survives is segment i of this group. */
  ghost predicate HasSegment(entries: seq<Entry>, group: text, i: int) {
    exists j: nat :: Survives(entries, j) && GroupOf(entries[j]) == group && entries[j].t.index == i
  }

  /** Where any segment of a group survives, all of them do. */
  ghost predicate AllOrNothing(entries: seq<Entry>, n: nat) {
    forall j: nat, i | Survives(entries, j) && 0 <= i < n :: HasSegment(entries, GroupOf(entries[j]), i)
  }

  ghost predicate Reached(entries: seq<Entry>, recipient: text) {
    exists j: nat :: Survives(entries, j) && entries[j].recipient == recipient
  }

  lemma RowMeans(m: text, e: Entry)
    ensures GroupKey(RowOf(m, e)) == GroupOf(e) && RowOf(m, e).messageID == m && RowOf(m, e).recipient == e.recipient
    ensures RowOf(m, e).segmentIndex == e.t.index && RowOf(m, e).segmentCount == e.t.count
  {
  }

  /** A segment has a row exactly when it survives. */
  lemma IndexRecorded(submissions: map<Key, Submission>, m: text, entries: seq<Entry>, n: nat, k: Key, i: int)
    requires m != [] && OfOnePush(entries, n) && forall q :: !Of(submissions, q, m)
    requires Of(RecordAll(submissions, m, entries), k, m)
    ensures var r := RecordAll(submissions, m, entries);
            RowWithIndex(r, m, k, i) <==> HasSegment(entries, GroupKey(r[k]), i)
  {
    RowsAreSurvivors(submissions, m, entries, n);
    hide RecordAll, RowOf, GroupOf, GroupKey, Kept;
    var r := RecordAll(submissions, m, entries);
    forall j | 0 <= j < |entries|
      ensures GroupKey(RowOf(m, entries[j])) == GroupOf(entries[j])
              && RowOf(m, entries[j]).segmentIndex == entries[j].t.index
    {
      RowMeans(m, entries[j]);
    }
    if RowWithIndex(r, m, k, i) {
      var q :| Of(r, q, m) && GroupKey(r[q]) == GroupKey(r[k]) && r[q].segmentIndex == i;
      assert Survives(entries, LastKept(entries, q));
    }
    if HasSegment(entries, GroupKey(r[k]), i) {
      var j: nat :| Survives(entries, j) && GroupOf(entries[j]) == GroupKey(r[k]) && entries[j].t.index == i;
      assert Of(r, KeyOfEntry(entries[j]), m);
    }
  }

  lemma RowsAgree(submissions: map<Key, Submission>, m: text, entries: seq<Entry>, n: nat)
    requires m != [] && OfOnePush(entries, n) && forall k :: !Of(submissions, k, m)
    ensures var r := RecordAll(submissions, m, entries);
            CountsAgree(r, m) && forall k | Of(r, k, m) :: k.remoteID != [] && r[k].segmentCount == n
  {
    RowsAreSurvivors(submissions, m, entries, n);
    hide RecordAll, GroupKey;
    var r := RecordAll(submissions, m, entries);
    forall k | Of(r, k, m) ensures k.remoteID != [] && 0 <= r[k].segmentIndex < r[k].segmentCount == n {
      assert Kept(entries[LastKept(entries, k)]);
    }
  }

  /** Rows agree on the count, have IDs, and cover their groups exactly if survivors do. */
  lemma RecordedGroups(submissions: map<Key, Submission>, m: text, entries: seq<Entry>, n: nat)
    requires m != [] && OfOnePush(entries, n) && forall k :: !Of(submissions, k, m)
    ensures var r := RecordAll(submissions, m, entries);
            && CountsAgree(r, m)
            && (forall k | Of(r, k, m) :: k.remoteID != [] && r[k].segmentCount == n)
            && (Covered(r, m) <==> AllOrNothing(entries, n))
  {
    RowsAreSurvivors(submissions, m, entries, n);
    RowsAgree(submissions, m, entries, n);
    hide RecordAll, Kept, CountsAgree, LastKept, KeyOfEntry, RowOf;
    var r := RecordAll(submissions, m, entries);
    forall k, i | Of(r, k, m) && 0 <= i < n
      ensures RowWithIndex(r, m, k, i) <==> HasSegment(entries, GroupKey(r[k]), i)
    {
      IndexRecorded(submissions, m, entries, n, k, i);
    }
    forall j: nat | Survives(entries, j)
      ensures Of(r, KeyOfEntry(entries[j]), m) && GroupKey(r[KeyOfEntry(entries[j])]) == GroupOf(entries[j])
    {
      RowMeans(m, entries[j]);
    }
    hide RowWithIndex, HasSegment, GroupKey, GroupOf, Survives;
    if Covered(r, m) {
      forall j: nat, i | Survives(entries, j) && 0 <= i < n ensures HasSegment(entries, GroupOf(entries[j]), i) {
        assert RowWithIndex(r, m, KeyOfEntry(entries[j]), i);
      }
    }
    if AllOrNothing(entries, n) {
      forall k, i | Of(r, k, m) && 0 <= i < r[k].segmentCount ensures RowWithIndex(r, m, k, i) {
        assert Survives(entries, LastKept(entries, k));
        assert GroupOf(entries[LastKept(entries, k)]) == GroupKey(r[k]);
      }
    }
  }

  lemma RecipientRecorded(submissions: map<Key, Submission>, m: text, entries: seq<Entry>, n: nat, recipient: text)
    requires m != [] && OfOnePush(entries, n) && forall k :: !Of(submissions, k, m)
    ensures HasRow(RecordAll(submissions, m, entries), m, recipient) <==> Reached(entries, recipient)
  {
    RowsAreSurvivors(submissions, m, entries, n);
    hide RecordAll, Kept;
    var r := RecordAll(submissions, m, entries);
    if HasRow(r, m, recipient) {
      var k :| Of(r, k, m) && r[k].recipient == recipient;
      assert Survives(entries, LastKept(entries, k));
    }
    if Reached(entries, recipient) {
      var j: nat :| Survives(entries, j) && entries[j].recipient == recipient;
      assert Of(r, KeyOfEntry(entries[j]), m);
    }
  }

  /**
   After any submits of a push, failed ones and repeated ones among them, and whatever other rows
   the table had: all segments of these recipients are recorded exactly when each recipient has a
   segment whose ID was not given again, and no group has some of its segments without the others.
   */
  lemma RecordingCompletes(submissions: map<Key, Submission>, m: text, entries: seq<Entry>, n: nat,
                           recipients: set<text>)
    requires m != [] && OfOnePush(entries, n) && forall k :: !Of(submissions, k, m)
    ensures AllRecorded(RecordAll(submissions, m, entries), m, recipients) <==>
            AllOrNothing(entries, n) && forall r | r in recipients :: Reached(entries, r)
  {
    hide RecordAll, Reached, AllOrNothing;
    RecordedGroups(submissions, m, entries, n);
    forall r | r in recipients
      ensures HasRow(RecordAll(submissions, m, entries), m, r) <==> Reached(entries, r)
    {
      RecipientRecorded(submissions, m, entries, n, r);
    }
  }

  /**
   And the message can ever be delivered exactly when some segment has a row, and no group has some
   of its segments without the others. A group that has none does not count.
   */
  lemma DeliverableAfter(submissions: map<Key, Submission>, m: text, entries: seq<Entry>, n: nat, db: Db)
    requires m != [] && OfOnePush(entries, n) && forall k :: !Of(submissions, k, m)
    requires db.submissions == RecordAll(submissions, m, entries)
    ensures Deliverable(db, m) <==> (exists j: nat :: Survives(entries, j)) && AllOrNothing(entries, n)
  {
    RecordedGroups(submissions, m, entries, n);
    RowsAreSurvivors(submissions, m, entries, n);
    hide RecordAll, AllOrNothing, Deliverable, Survives;
    DeliverableIff(db, m);
    if j: nat :| Survives(entries, j) { assert Of(db.submissions, KeyOfEntry(entries[j]), m); }
    if k :| Of(db.submissions, k, m) { assert Survives(entries, LastKept(entries, k)); }
  }

  // ------------------------------------------------- one push to each recipient

  /** One recipient's push, as tracked. */
  datatype Send = Send(upstream: text, recipient: text, tracked: seq<Submit.Tracked>)

  function EntriesOf(s: Send): seq<Entry> {
    seq(|s.tracked|, i requires 0 <= i < |s.tracked| => Entry(s.upstream, s.recipient, s.tracked[i]))
  }

  function AllEntries(sends: seq<Send>): seq<Entry> {
    if sends == [] then [] else AllEntries(sends[..|sends| - 1]) + EntriesOf(sends[|sends| - 1])
  }

  function Recipients(sends: seq<Send>): set<text> {
    set s | s in sends :: s.recipient
  }

  /** A push of n segments that was acknowledged and kept to the end. */
  predicate Whole(s: Send, n: nat) {
    && s.upstream != [] && s.recipient != [] && |s.tracked| == n > 0
    && forall i | 0 <= i < n :: s.tracked[i].index == i && s.tracked[i].count == n
  }

  /** Every segment has an ID, and no other has it from the same upstream. */
  predicate DistinctIDs(entries: seq<Entry>) {
    && (forall j | 0 <= j < |entries| :: entries[j].t.remoteID != [])
    && forall i, j | 0 <= i < j < |entries| :: KeyOfEntry(entries[i]) != KeyOfEntry(entries[j])
  }

  /** One push to each recipient, and no two recipients whose groups are taken for one. */
  predicate OneEach(sends: seq<Send>, n: nat) {
    && (forall i | 0 <= i < |sends| :: Whole(sends[i], n))
    && (forall i, j | 0 <= i < j < |sends| :: sends[i].recipient != sends[j].recipient)
    && forall i, j | 0 <= i < j < |sends| ::
         sends[i].upstream + [0] + sends[i].recipient != sends[j].upstream + [0] + sends[j].recipient
  }

  /** Every segment is segment i of push p, for some p and i. */
  lemma {:induction false} SegmentOrigin(sends: seq<Send>, n: nat, j: nat) returns (p: nat, i: nat)
    requires (forall q | 0 <= q < |sends| :: Whole(sends[q], n)) && j < |AllEntries(sends)|
    ensures p < |sends| && i < n == |sends[p].tracked|
    ensures AllEntries(sends)[j] == Entry(sends[p].upstream, sends[p].recipient, sends[p].tracked[i])
    ensures AllEntries(sends)[j].t.index == i && AllEntries(sends)[j].t.count == n
  {
    var init := sends[..|sends| - 1];
    if j < |AllEntries(init)| {
      p, i := SegmentOrigin(init, n, j);
    } else {
      p, i := |init|, j - |AllEntries(init)|;
    }
  }

  /** Each segment of each push is there. */
  lemma {:induction false} SegmentThere(sends: seq<Send>, n: nat, p: nat, i: nat) returns (j: nat)
    requires (forall q | 0 <= q < |sends| :: Whole(sends[q], n)) && p < |sends| && i < n
    ensures j < |AllEntries(sends)| && |sends[p].tracked| == n
    ensures AllEntries(sends)[j] == Entry(sends[p].upstream, sends[p].recipient, sends[p].tracked[i])
  {
    var init := sends[..|sends| - 1];
    if p < |init| {
      j := SegmentThere(init, n, p, i);
    } else {
      j := |AllEntries(init)| + i;
    }
  }

  /** No two segments are the same segment of one group. */
  lemma {:induction false} SegmentsApart(sends: seq<Send>, n: nat, i: nat, j: nat)
    requires OneEach(sends, n) && i < |AllEntries(sends)| && j < |AllEntries(sends)|
    requires GroupOf(AllEntries(sends)[i]) == GroupOf(AllEntries(sends)[j])
    requires AllEntries(sends)[i].t.index == AllEntries(sends)[j].t.index
    ensures i == j
  {
    var init := sends[..|sends| - 1];
    var before := |AllEntries(init)|;
    if i < before && j < before {
      SegmentsApart(init, n, i, j);
    } else {
      var p, a := SegmentOrigin(sends, n, i);
      var q, b := SegmentOrigin(sends, n, j);
      assert p == q;
      if i < before { Elsewhere(init, n, i, sends[|sends| - 1]); }
      if j < before { Elsewhere(init, n, j, sends[|sends| - 1]); }
    }
  }

  /** A segment of earlier pushes is of none of the groups of a push that is apart from them. */
  lemma Elsewhere(sends: seq<Send>, n: nat, j: nat, last: Send)
    requires (forall q | 0 <= q < |sends| :: Whole(sends[q], n)) && j < |AllEntries(sends)|
    requires forall q | 0 <= q < |sends| ::
               sends[q].upstream + [0] + sends[q].recipient != last.upstream + [0] + last.recipient
    ensures GroupOf(AllEntries(sends)[j]) != last.upstream + [0] + last.recipient
  {
    var p, i := SegmentOrigin(sends, n, j);
  }

  /** The segments of the pushes, all of them and each once. */
  lemma SegmentsListed(sends: seq<Send>, n: nat)
    requires OneEach(sends, n)
    ensures OfOnePush(AllEntries(sends), n)
    ensures var e := AllEntries(sends);
            && (forall i, j | 0 <= i < |e| && 0 <= j < |e| && GroupOf(e[i]) == GroupOf(e[j])
                  && e[i].t.index == e[j].t.index :: i == j)
            && forall j | 0 <= j < |e| ::
                 e[j].upstream != [] && e[j].recipient != [] && e[j].recipient in Recipients(sends)
  {
    hide GroupOf, AllEntries;
    var e := AllEntries(sends);
    forall j | 0 <= j < |e|
      ensures 0 <= e[j].t.index < n == e[j].t.count
      ensures e[j].upstream != [] && e[j].recipient != [] && e[j].recipient in Recipients(sends)
    {
      var p, i := SegmentOrigin(sends, n, j);
      assert sends[p] in sends;
    }
    forall i, j | 0 <= i < |e| && 0 <= j < |e| && GroupOf(e[i]) == GroupOf(e[j]) && e[i].t.index == e[j].t.index
      ensures i == j
    {
      SegmentsApart(sends, n, i, j);
    }
  }

  /** All segments survive exactly when their IDs are distinct. */
  lemma AllSurvive(entries: seq<Entry>)
    requires forall j | 0 <= j < |entries| :: entries[j].upstream != [] && entries[j].recipient != []
    ensures (forall j: nat | j < |entries| :: Survives(entries, j)) <==> DistinctIDs(entries)
  {
    if DistinctIDs(entries) {
      forall j: nat | j < |entries| ensures Survives(entries, j) {
        assert Kept(entries[j]);
      }
    }
    if forall j: nat | j < |entries| :: Survives(entries, j) {
      forall j: nat | j < |entries| ensures entries[j].t.remoteID != [] {
        assert Survives(entries, j);
      }
      forall i: nat, j: nat | i < j < |entries| ensures KeyOfEntry(entries[i]) != KeyOfEntry(entries[j]) {
        assert Survives(entries, i) && Survives(entries, j);
      }
    }
  }

  /** All segments of all groups survive, and so every recipient is reached. */
  lemma AllComplete(sends: seq<Send>, n: nat)
    requires n > 0 && OneEach(sends, n)
    requires forall j: nat | j < |AllEntries(sends)| :: Survives(AllEntries(sends), j)
    ensures AllOrNothing(AllEntries(sends), n) && forall r | r in Recipients(sends) :: Reached(AllEntries(sends), r)
  {
    hide AllEntries, LastKept;
    var e := AllEntries(sends);
    forall j: nat, i: nat | Survives(e, j) && i < n ensures HasSegment(e, GroupOf(e[j]), i) {
      var p, _ := SegmentOrigin(sends, n, j);
      var b := SegmentThere(sends, n, p, i);
      assert Survives(e, b);
    }
    forall r | r in Recipients(sends) ensures Reached(e, r) {
      var p: nat :| p < |sends| && sends[p].recipient == r;
      var b := SegmentThere(sends, n, p, 0);
      assert Survives(e, b);
    }
  }

  /** A segment of a group that is complete, and has any, survives: no other can stand in for it. */
  lemma OneSurvives(sends: seq<Send>, n: nat, j: nat)
    requires OneEach(sends, n) && j < |AllEntries(sends)|
    requires AllOrNothing(AllEntries(sends), n) && Reached(AllEntries(sends), AllEntries(sends)[j].recipient)
    ensures Survives(AllEntries(sends), j)
  {
    SegmentsListed(sends, n);
    hide AllEntries, LastKept, Survives;
    var e := AllEntries(sends);
    var a: nat :| Survives(e, a) && e[a].recipient == e[j].recipient;
    SurvivorIn(e, a);
    SameRecipientSameGroup(sends, n, a, j);
    assert HasSegment(e, GroupOf(e[a]), e[j].t.index);
    var b: nat :| Survives(e, b) && GroupOf(e[b]) == GroupOf(e[a]) && e[b].t.index == e[j].t.index;
    SurvivorIn(e, b);
    hide GroupOf;
    assert b == j;
  }

  lemma SurvivorIn(entries: seq<Entry>, j: nat)
    requires Survives(entries, j)
    ensures j < |entries|
  {
  }

  lemma SameRecipientSameGroup(sends: seq<Send>, n: nat, i: nat, j: nat)
    requires OneEach(sends, n) && i < |AllEntries(sends)| && j < |AllEntries(sends)|
    requires AllEntries(sends)[i].recipient == AllEntries(sends)[j].recipient
    ensures GroupOf(AllEntries(sends)[i]) == GroupOf(AllEntries(sends)[j])
  {
    hide AllEntries;
    var p, a := SegmentOrigin(sends, n, i);
    var q, b := SegmentOrigin(sends, n, j);
    assert p == q;
  }

  /** All groups and recipients are complete exactly when all segments survive. */
  lemma CompleteIff(sends: seq<Send>, n: nat)
    requires n > 0 && OneEach(sends, n)
    ensures AllOrNothing(AllEntries(sends), n)
            && (forall r | r in Recipients(sends) :: Reached(AllEntries(sends), r)) <==>
            forall j: nat | j < |AllEntries(sends)| :: Survives(AllEntries(sends), j)
  {
    SegmentsListed(sends, n);
    hide AllEntries, LastKept, Survives, AllOrNothing, Reached, GroupOf;
    var e := AllEntries(sends);
    if AllOrNothing(e, n) && forall r | r in Recipients(sends) :: Reached(e, r) {
      forall j: nat | j < |e| ensures Survives(e, j) {
        OneSurvives(sends, n, j);
      }
    }
    if forall j: nat | j < |e| :: Survives(e, j) { AllComplete(sends, n); }
  }

  /**
   After one push to each recipient of a message that had no rows, all of them are completely
   recorded exactly when all segments of all of them together have IDs of their own.
   */
  lemma MessageRecorded(submissions: map<Key, Submission>, m: text, sends: seq<Send>, n: nat)
    requires m != [] && n > 0 && OneEach(sends, n) && forall k :: !Of(submissions, k, m)
    ensures AllRecorded(RecordAll(submissions, m, AllEntries(sends)), m, Recipients(sends)) <==>
            DistinctIDs(AllEntries(sends))
  {
    SegmentsListed(sends, n);
    hide AllRecorded, RecordAll, AllEntries, Survives, DistinctIDs, AllOrNothing, Reached;
    RecordingCompletes(submissions, m, AllEntries(sends), n, Recipients(sends));
    CompleteIff(sends, n);
    AllSurvive(AllEntries(sends));
  }

  /** A message to one recipient can ever be delivered exactly when its segments have IDs of their own. */
  lemma UntrackedSubmit(submissions: map<Key, Submission>, m: text, s: Send, n: nat, db: Db)
    requires m != [] && n > 0 && Whole(s, n) && forall k :: !Of(submissions, k, m)
    requires db.submissions == RecordAll(submissions, m, EntriesOf(s))
    ensures Deliverable(db, m) <==> DistinctIDs(EntriesOf(s))
  {
    OneSend(s, n);
    var e := EntriesOf(s);
    hide Survives, AllOrNothing, Deliverable, RecordAll, EntriesOf, AllEntries, DistinctIDs, Recipients, OneEach, Whole,
      Reached, OfOnePush, LastKept, Of;
    CompleteIff([s], n);
    AllSurvive(e);
    DeliverableAfter(submissions, m, e, n, db);
    SomeSurvive(e, s.recipient);
  }

  lemma OneSend(s: Send, n: nat)
    requires n > 0 && Whole(s, n)
    ensures AllEntries([s]) == EntriesOf(s) && OneEach([s], n) && Recipients([s]) == {s.recipient}
    ensures OfOnePush(EntriesOf(s), n)
    ensures forall j | 0 <= j < |EntriesOf(s)| ::
              EntriesOf(s)[j].recipient == s.recipient != [] && EntriesOf(s)[j].upstream != []
  {
    assert [s][..0] == [];
    assert AllEntries([s]) == [] + EntriesOf(s);
  }

  lemma SomeSurvive(entries: seq<Entry>, recipient: text)
    requires forall j | 0 <= j < |entries| :: entries[j].recipient == recipient
    ensures (exists j: nat :: Survives(entries, j)) <==> Reached(entries, recipient)
  {
    if j: nat :| Survives(entries, j) { assert entries[j].recipient == recipient; }
  }

  // ------------------------------------------------------ messages gone astray

  lemma RecordTwo(m: text, a: Entry, b: Entry)
    ensures RecordAll(map[], m, [a, b]) ==
            Tracking(Tracking(map[], a.upstream, m, a.recipient, a.t), b.upstream, m, b.recipient, b.t)
  {
    assert [a, b][..1] == [a] && [a][..0] == [];
    hide Tracking;
    assert RecordAll(map[], m, []) == map[];
    assert RecordAll(map[], m, [a]) == Tracking(map[], a.upstream, m, a.recipient, a.t);
  }

  /**
   Two recipients, the second of whom the upstream gave no message ID: one delivery receipt for
   the first makes the message delivered, and nothing says the second got it.
   */
  lemma OneRecipientMissed(upstream: text, m: text, first: text, second: text, id: text)
    requires upstream != [] && m != [] && first != [] && second != [] && first != second && id != []
    ensures var entries := [Entry(upstream, first, Submit.Tracked(0, 1, id)),
                            Entry(upstream, second, Submit.Tracked(0, 1, []))];
            var db := Db(RecordAll(map[], m, entries), map[m := Delivering], []);
            var e := Event(upstream, Receipt(id, Ascii("DELIVRD"), []), None);
            Verdict(db, [e], m) == Some(DeliveredStatus) && !HasRow(db.submissions, m, second)
  {
    var a, b := Entry(upstream, first, Submit.Tracked(0, 1, id)), Entry(upstream, second, Submit.Tracked(0, 1, []));
    RecordTwo(m, a, b);
    OneRowDelivered(upstream, m, first, id);
    var submissions: map<Key, Submission> := map[Key(upstream, id) := RowOf(m, a)];
    assert RecordAll(map[], m, [a, b]) == submissions;
    assert !HasRow(submissions, m, second);
    hide RecordAll, Verdict;
  }

  /**
   Two recipients whom the upstream gave the same message ID: each push on its own has an ID for
   every segment, one delivery receipt makes the message delivered, and the first has no row.
   */
  lemma SharedIDMissed(upstream: text, m: text, first: text, second: text, id: text)
    requires upstream != [] && m != [] && first != [] && second != [] && first != second && id != []
    ensures var sends := [Send(upstream, first, [Submit.Tracked(0, 1, id)]),
                          Send(upstream, second, [Submit.Tracked(0, 1, id)])];
            var db := Db(RecordAll(map[], m, AllEntries(sends)), map[m := Delivering], []);
            var e := Event(upstream, Receipt(id, Ascii("DELIVRD"), []), None);
            && (forall s | s in sends :: DistinctIDs(EntriesOf(s)))
            && Verdict(db, [e], m) == Some(DeliveredStatus) && !HasRow(db.submissions, m, first)
  {
    var t := Submit.Tracked(0, 1, id);
    var one, two := Send(upstream, first, [t]), Send(upstream, second, [t]);
    var a, b := Entry(upstream, first, t), Entry(upstream, second, t);
    assert [one, two][..1] == [one] && [one][..0] == [];
    assert EntriesOf(one) == [a] && EntriesOf(two) == [b];
    assert AllEntries([]) == [] && AllEntries([one]) == [a] && AllEntries([one, two]) == [a, b];
    RecordTwo(m, a, b);
    OneRowDelivered(upstream, m, second, id);
    var submissions: map<Key, Submission> := map[Key(upstream, id) := RowOf(m, b)];
    assert RecordAll(map[], m, [a, b]) == submissions;
    assert !HasRow(submissions, m, first);
    hide RecordAll, Verdict, AllEntries, EntriesOf;
  }

  lemma OneRowDelivered(upstream: text, m: text, recipient: text, id: text)
    requires id != []
    ensures var row := Row(upstream, m, recipient, Submit.Tracked(0, 1, id));
            var db := Db(map[Key(upstream, id) := row], map[m := Delivering], []);
            Verdict(db, [Event(upstream, Receipt(id, Ascii("DELIVRD"), []), None)], m) == Some(DeliveredStatus)
  {
    var k, row := Key(upstream, id), Row(upstream, m, recipient, Submit.Tracked(0, 1, id));
    var db := Db(map[k := row], map[m := Delivering], []);
    var e := Event(upstream, Receipt(id, Ascii("DELIVRD"), []), None);
    DelivrdDelivers(id);
    assert Latest(Pending, [e], k) == Delivered;
    hide Verdict, MapReceiptStatus, Latest, GroupKey;
    assert Of(db.submissions, k, m);
    assert forall i | 0 <= i < 1 :: SegmentDelivered(db, [e], m, k, i) by {
      assert Of(db.submissions, k, m);
    }
    VerdictByIndex(db, [e], m);
  }
}
