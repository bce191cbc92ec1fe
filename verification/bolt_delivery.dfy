/**
 * The watch loop run against the bolt store. The loop as written moves
 * its cursor to the index of the last notification it sent and keeps the
 * generation ID it was started with; since the bolt read includes the
 * entry at `fromIndex`, and reads everything under any other generation
 * ID, such a session sends notifications it has already sent. The
 * corrected loop (`StepPastLast`) delivers every notification once, in
 * order, against the fixed-width store.
 */
module BoltDelivery {
  import opened Wrappers
  import opened Keys
  import opened OrderedMap
  import opened Notifications
  import opened BoltStore
  import opened StoreProperties
  import opened Watch

  // ----- facts about a topic's log -----

  /** The notifications a topic's bucket holds, in key order. */
  function TopicLog(s: Store, topic: string): seq<Notification>
    requires Readable(TopicBucket(s, topic).entries)
  {
    Log(TopicBucket(s, topic).entries)
  }

  /** Every logged index has been issued by the bucket's sequence. */
  lemma LogIndicesIssued(scheme: KeyScheme, b: Bucket)
    requires BucketValid(scheme, b) && Readable(b.entries)
    ensures forall n :: n in Log(b.entries) ==> 1 <= n.index <= b.sequence
  {
    var l := Log(b.entries);
    forall n | n in l ensures 1 <= n.index <= b.sequence {
      var i :| 0 <= i < |l| && l[i] == n;
      assert EntryValid(scheme, b.sequence, b.entries[i]);
    }
  }

  /** On an ascending list every element is at or below the last one. */
  lemma IncreasingUpToLast(ns: seq<Notification>)
    requires Increasing(ns) && |ns| > 0
    ensures forall n :: n in ns ==> n.index <= Last(ns).index
  {
    forall n | n in ns ensures n.index <= Last(ns).index {
      var i :| 0 <= i < |ns| && ns[i] == n;
    }
  }

  /**
   * What the loop reads at cursor `c` from a fixed-width store: the
   * topic's log from `c.idx` on, provided the cursor carries the store's
   * generation ID or starts at 0 (a session that has seen nothing yet).
   */
  lemma ReadAtCursor(s: Store, topic: string, c: Cursor)
    requires Valid(s) && s.scheme == FixedWidth && Readable(TopicBucket(s, topic).entries)
    requires TopicBucket(s, topic).sequence <= MaxUint64 && c.idx <= MaxUint64
    requires c.genID == s.generationID || c.idx == 0
    ensures Increasing(TopicLog(s, topic))
    ensures Get(s, topic, c.genID, c.idx) ==
      Success(NotificationsResponse(s.generationID, AtLeast(TopicLog(s, topic), c.idx)))
  {
    FixedWidthGetIsIndexRange(s, topic, c.idx);
    if c.genID != s.generationID {
      StaleGenerationReadsAll(s, topic, c.genID, c.idx);
      AtLeastAll(TopicLog(s, topic), 0);
    }
  }

  // ----- the loop as written -----

  /**
   * After a poll that sends a batch, the cursor rests on the last index
   * sent. With no append in between, the next poll seeks to the key of that
   * index, which is the bucket's greatest key, so it reads exactly that
   * notification again, sends it as a message of its own and leaves the
   * cursor where it was: every later poll sends it once more. This holds
   * under either key scheme.
   */
  lemma RedeliversLastEntry(s: Store, topic: string, c: Cursor)
    requires Valid(s) && Readable(TopicBucket(s, topic).entries)
    requires c.genID == s.generationID
    ensures var t := Step(c, Get(s, topic, c.genID, c.idx), true);
      t.Delivered? ==>
        var again := NotificationsResponse(s.generationID, [Last(t.message.notifications)]);
        && Get(s, topic, t.cursor.genID, t.cursor.idx) == Success(again)
        && Step(t.cursor, Get(s, topic, t.cursor.genID, t.cursor.idx), true) == Delivered(t.cursor, again)
  {
    var r := Get(s, topic, c.genID, c.idx);
    ReadEndsWithLastEntry(s, topic, c.genID, c.idx);
    if |r.value.notifications| > 0 {
      var n := Last(r.value.notifications);
      var es := TopicBucket(s, topic).entries;
      LastKeyReadsLastEntry(s, topic, n);
      SoleEntryRead(s, topic, n.index, es[|es| - 1]);
    }
  }

  /** A read of a readable topic succeeds, and a non-empty one ends with the notification of the bucket's last entry. */
  lemma ReadEndsWithLastEntry(s: Store, topic: string, genID: string, k: nat)
    requires Valid(s) && Readable(TopicBucket(s, topic).entries)
    ensures var r := Get(s, topic, genID, k);
      var es := TopicBucket(s, topic).entries;
      && r.Success?
      && (|r.value.notifications| > 0 ==>
            |es| > 0 && es[|es| - 1].value == Marshalled(Last(r.value.notifications)))
  {
    ReadableGet(s, topic, genID, k);
    VisibleEndsWithLastEntry(s, topic, genID, k);
    var r := Get(s, topic, genID, k);
    var vis := Visible(s, topic, genID, k);
    if |vis| > 0 {
      assert vis[|vis| - 1].value == Marshalled(r.value.notifications[|vis| - 1]);
    }
  }

  /** The entries a read sees are a suffix of the bucket: a non-empty one ends with the bucket's last entry. */
  lemma VisibleEndsWithLastEntry(s: Store, topic: string, genID: string, k: nat)
    requires Valid(s)
    ensures var vis, es := Visible(s, topic, genID, k), TopicBucket(s, topic).entries;
      |vis| > 0 ==> |es| > 0 && vis[|vis| - 1] == es[|es| - 1]
  {
    var es := TopicBucket(s, topic).entries;
    BucketOfValid(s, topic);
    var start := if genID == s.generationID then Seek(es, KeyFromIndex(s.scheme, k)) else 0;
    ReadsVisible(s, topic, genID, k, start);
  }

  /** The key of the index held by a bucket's last entry is the bucket's greatest key: a read from that index sees the last entry alone. */
  lemma LastKeyReadsLastEntry(s: Store, topic: string, n: Notification)
    requires Valid(s)
    requires var es := TopicBucket(s, topic).entries; |es| > 0 && es[|es| - 1].value == Marshalled(n)
    ensures var es := TopicBucket(s, topic).entries; Visible(s, topic, s.generationID, n.index) == [es[|es| - 1]]
  {
    var b := TopicBucket(s, topic);
    BucketOfValid(s, topic);
    assert EntryValid(s.scheme, b.sequence, b.entries[|b.entries| - 1]);
    AtOrAfterLast(b.entries);
  }

  /** A read whose visible entries are the one entry `e`, holding a notification, returns just that notification. */
  lemma SoleEntryRead(s: Store, topic: string, k: nat, e: Entry<Record>)
    requires Valid(s) && Visible(s, topic, s.generationID, k) == [e] && e.value.Marshalled?
    ensures Get(s, topic, s.generationID, k) == Success(NotificationsResponse(s.generationID, [e.value.notification]))
  {
    var vis := Visible(s, topic, s.generationID, k);
    assert vis[0].value.Marshalled?;
    var r := Get(s, topic, s.generationID, k);
    var ns := r.value.notifications;
    assert |ns| == 1 && vis[0].value == Marshalled(ns[0]);
    assert ns == [e.value.notification];
  }

  /**
   * A session whose generation ID is not the store's (one opened without
   * a generation ID, say) is sent the topic's whole log on its first
   * poll, keeps its generation ID, and reads the whole log again on the
   * next poll: the loop sends the same message on every poll.
   */
  lemma StaleCursorResendsLog(s: Store, topic: string, c: Cursor)
    requires Valid(s) && Readable(TopicBucket(s, topic).entries)
    requires c.genID != s.generationID && |TopicLog(s, topic)| > 0
    ensures var t := Step(c, Get(s, topic, c.genID, c.idx), true);
      var all := NotificationsResponse(s.generationID, TopicLog(s, topic));
      && t == Delivered(Cursor(c.genID, Last(TopicLog(s, topic)).index), all)
      && Step(t.cursor, Get(s, topic, t.cursor.genID, t.cursor.idx), true) == t
  {
    StaleGenerationReadsAll(s, topic, c.genID, c.idx);
    StaleGenerationReadsAll(s, topic, c.genID, Last(TopicLog(s, topic)).index);
  }

  /**
   * The smallest case: one append to a fresh store, under either key
   * scheme (decimal text as the store writes it, or fixed width), and a
   * session opened with the store's generation ID at index 0. Every poll
   * sends the same one-notification message.
   */
  lemma OneAppendSentOnEveryPoll(scheme: KeyScheme, freshID: string, topic: string, d: Payload, now: int)
    ensures var s := Append(Open(Volume(None, None), freshID, scheme), topic, d, now);
      var sent := Delivered(Cursor(freshID, 1), NotificationsResponse(freshID, [Notification(1, now, d)]));
      && Step(Cursor(freshID, 0), Get(s, topic, freshID, 0), true) == sent
      && Step(sent.cursor, Get(s, topic, freshID, 1), true) == sent
  {
    var s0 := Open(Volume(None, None), freshID, scheme);
    OpenEmptyVolume(freshID, scheme);
    assert TopicBucket(s0, topic) == Bucket(0, []);
    var s := Append(s0, topic, d, now);
    var e := Entry(KeyFromIndex(scheme, 1), Marshal(Notification(1, now, d)));
    var es := TopicBucket(s, topic).entries;
    assert es == [e] by {
      assert |es| == 1 && e in es;
    }
    assert !Less(KeyFromIndex(scheme, 1), KeyFromIndex(scheme, 0)) by {
      KeyOrder(scheme, 0, 1);
      LessAsymmetric(KeyFromIndex(scheme, 0), KeyFromIndex(scheme, 1));
    }
    AllAtOrAfter(es, KeyFromIndex(scheme, 0));
    SoleEntryRead(s, topic, 0, e);
    RedeliversLastEntry(s, topic, Cursor(freshID, 0));
  }

  // ----- the corrected loop -----

  /** The end of a run: the store, the session, and the notification lists sent, in order. */
  datatype Run = Run(store: Store, state: SessionState, batches: seq<seq<Notification>>)

  /**
   * Runs the corrected session on `topic` through `events` against the
   * bolt store: the store stays valid with its scheme and generation ID,
   * the session ends holding its starting generation ID or the store's,
   * and a stopped loop never restarts.
   */
  function RunBolt(s: Store, topic: string, st: SessionState, events: seq<Event>): (r: Run)
    requires Valid(s)
    ensures Valid(r.store) && r.store.scheme == s.scheme && r.store.generationID == s.generationID
    ensures r.state.cursor.genID == st.cursor.genID || r.state.cursor.genID == s.generationID
    ensures r.state.running ==> st.running
    decreases |events|
  {
    if |events| == 0 then Run(s, st, [])
    else
      match events[0]
      case Produce(t, d, now) => RunBolt(Append(s, t, d, now), topic, st, events[1..])
      case Poll(ok) =>
        if !st.running then RunBolt(s, topic, st, events[1..])
        else
          match StepPastLast(st.cursor, Get(s, topic, st.cursor.genID, st.cursor.idx), ok)
          case Idle(c) => RunBolt(s, topic, SessionState(c, true), events[1..])
          case Ended(_) => RunBolt(s, topic, SessionState(st.cursor, false), events[1..])
          case Delivered(c, m) =>
            var rest := RunBolt(s, topic, SessionState(c, true), events[1..]);
            Run(rest.store, rest.state, [m.notifications] + rest.batches)
  }

  /** `l'` is `l` followed only by notifications numbered above `q`. */
  predicate GrowsAbove(l: seq<Notification>, l': seq<Notification>, q: nat) {
    l <= l' && forall n :: n in l'[|l|..] ==> n.index > q
  }

  /**
   * The store side of a run from `s` to `s'`: the store stays valid with
   * the same scheme and generation ID, the topic stays readable, and its
   * log only grows at the end, by notifications numbered above the
   * bucket's sequence at the start.
   */
  ghost predicate LogGrows(s: Store, topic: string, s': Store) {
    && Valid(s') && s'.scheme == s.scheme && s'.generationID == s.generationID
    && Readable(TopicBucket(s, topic).entries) && Readable(TopicBucket(s', topic).entries)
    && TopicBucket(s, topic).sequence <= TopicBucket(s', topic).sequence
    && GrowsAbove(TopicLog(s, topic), TopicLog(s', topic), TopicBucket(s, topic).sequence)
  }

  /** How many sequence numbers the topic's bucket issued between `s` and `s'`. */
  function Issued(s: Store, topic: string, s': Store): int {
    TopicBucket(s', topic).sequence - TopicBucket(s, topic).sequence
  }

  /**
   * The session side of a run, on the final log `l`: the cursor only moves
   * forward, the concatenated batches are exactly the logged notifications
   * between the starting and the final cursor, the final cursor carries
   * the store's generation ID unless the loop never moved it, a stopped
   * loop never restarts, every message is non-empty, and a session still
   * running after a final poll has caught up with the log.
   */
  ghost predicate SessionDelivers(l: seq<Notification>, genID: string, st: SessionState, events: seq<Event>,
                                  end: SessionState, batches: seq<seq<Notification>>) {
    && st.cursor.idx <= end.cursor.idx
    && Concat(batches) == Between(l, st.cursor.idx, end.cursor.idx)
    && (end.cursor.genID == genID || end.cursor == st.cursor)
    && (end.running ==> st.running)
    && NonEmpty(batches)
    && (end.running && EndsWithPoll(events) ==> AtLeast(l, end.cursor.idx) == [])
  }

  predicate EndsWithPoll(events: seq<Event>) {
    |events| > 0 && events[|events| - 1].Poll?
  }

  lemma EndsWithPollTail(events: seq<Event>)
    requires |events| > 1
    ensures EndsWithPoll(events) == EndsWithPoll(events[1..])
  {
    assert events[|events| - 1] == events[1..][|events| - 2];
  }

  /** What a corrected run from `s` and `st` through `events` satisfies. */
  ghost predicate Delivers(s: Store, topic: string, st: SessionState, events: seq<Event>, r: Run) {
    && LogGrows(s, topic, r.store)
    && Issued(s, topic, r.store) <= |events|
    && SessionDelivers(TopicLog(r.store, topic), s.generationID, st, events, r.state, r.batches)
  }

  /**
   * Where a run may start: a readable fixed-width topic with room for
   * `appends` more sequence numbers, and a cursor that either carries the
   * store's generation ID or starts at 0.
   */
  predicate Ready(s: Store, topic: string, c: Cursor, appends: nat) {
    && Valid(s) && s.scheme == FixedWidth && Readable(TopicBucket(s, topic).entries)
    && TopicBucket(s, topic).sequence + appends <= MaxUint64 && c.idx <= MaxUint64
    && (c.genID == s.generationID || c.idx == 0)
  }

  /**
   * The corrected loop delivers, against the fixed-width store, without
   * gaps, duplicates or reordering (see `Delivers`).
   */
  lemma {:induction false} CorrectedDeliveryInOrder(s: Store, topic: string, st: SessionState, events: seq<Event>)
    requires Ready(s, topic, st.cursor, |events|)
    ensures Delivers(s, topic, st, events, RunBolt(s, topic, st, events))
    decreases |events|, 1
  {
    if |events| == 0 {
      LogGrowsRefl(s, topic);
      BetweenNone(TopicLog(s, topic), st.cursor.idx, st.cursor.idx);
    } else if events[0].Produce? {
      var e := events[0];
      var s' := Append(s, e.topic, e.data, e.now);
      ProduceReady(s, topic, st.cursor, e.topic, e.data, e.now, |events|);
      CorrectedDeliveryInOrder(s', topic, st, events[1..]);
      ProduceStep(s, topic, st, events, s', RunBolt(s', topic, st, events[1..]));
    } else if !st.running {
      CorrectedDeliveryInOrder(s, topic, st, events[1..]);
      SessionExtendsRun(s, topic, st, st, events, RunBolt(s, topic, st, events[1..]));
    } else {
      PollDeliversInOrder(s, topic, st, events);
    }
  }

  /** The induction step of `CorrectedDeliveryInOrder` for a poll of a running session. */
  lemma {:induction false} PollDeliversInOrder(s: Store, topic: string, st: SessionState, events: seq<Event>)
    requires Ready(s, topic, st.cursor, |events|)
    requires |events| > 0 && events[0].Poll? && st.running
    ensures Delivers(s, topic, st, events, RunBolt(s, topic, st, events))
    decreases |events|, 0
  {
    var t := StepPastLast(st.cursor, Get(s, topic, st.cursor.genID, st.cursor.idx), events[0].writeOk);
    PollReady(s, topic, st.cursor, events[0].writeOk, |events|);
    if t.Idle? {
      CorrectedDeliveryInOrder(s, topic, SessionState(t.cursor, true), events[1..]);
      SessionExtendsRun(s, topic, st, SessionState(t.cursor, true), events, RunBolt(s, topic, SessionState(t.cursor, true), events[1..]));
    } else if t.Ended? {
      CorrectedDeliveryInOrder(s, topic, SessionState(st.cursor, false), events[1..]);
      SessionExtendsRun(s, topic, st, SessionState(st.cursor, false), events, RunBolt(s, topic, SessionState(st.cursor, false), events[1..]));
    } else {
      CorrectedDeliveryInOrder(s, topic, SessionState(t.cursor, true), events[1..]);
      DeliveredStepRun(s, topic, st, t.cursor, t.message.notifications, events,
                       RunBolt(s, topic, SessionState(t.cursor, true), events[1..]));
    }
  }

  /** After an append the run can go on: the store is still ready, with one append fewer to make room for. */
  lemma ProduceReady(s: Store, topic: string, c: Cursor, t: string, d: Payload, now: int, appends: nat)
    requires Ready(s, topic, c, appends) && appends > 0
    ensures Ready(Append(s, t, d, now), topic, c, appends - 1)
    ensures LogGrows(s, topic, Append(s, t, d, now)) && Issued(s, topic, Append(s, t, d, now)) <= 1
  {
    ProduceGrowsLog(s, topic, t, d, now);
  }

  /** What one poll reads and does, and that the run can go on from the cursor it leaves. */
  lemma PollReady(s: Store, topic: string, c: Cursor, ok: bool, appends: nat)
    requires Ready(s, topic, c, appends) && appends > 0
    ensures var t := StepPastLast(c, Get(s, topic, c.genID, c.idx), ok);
      var batch := AtLeast(TopicLog(s, topic), c.idx);
      && !(t.Ended? && t.reason.GetFailed?)
      && (t.Idle? ==> t.cursor == c && batch == [])
      && (t.Delivered? ==>
            && |batch| > 0 && t.message.notifications == batch
            && t.cursor.genID == s.generationID
            && c.idx < t.cursor.idx <= TopicBucket(s, topic).sequence + 1
            && (forall n :: n in TopicLog(s, topic) ==> n.index < t.cursor.idx))
      && (t.Idle? || t.Delivered? ==> Ready(s, topic, t.cursor, appends - 1))
  {
    ReadAtCursor(s, topic, c);
    var t := StepPastLast(c, Get(s, topic, c.genID, c.idx), ok);
    if t.Delivered? {
      CursorPastBatch(s, topic, c, appends);
    }
  }

  /** An append: the run from the grown store satisfies `Delivers` for the whole event list. */
  lemma ProduceStep(s: Store, topic: string, st: SessionState, events: seq<Event>, s': Store, r: Run)
    requires Valid(s) && |events| > 0 && events[0].Produce?
    requires s' == Append(s, events[0].topic, events[0].data, events[0].now)
    requires LogGrows(s, topic, s') && Issued(s, topic, s') <= 1
    requires Delivers(s', topic, st, events[1..], r)
    ensures Delivers(s, topic, st, events, r)
  {
    LogGrowsTrans(s, s', r.store, topic);
    SessionExtends(TopicLog(r.store, topic), s.generationID, st, st, events, r.state, r.batches);
  }

  /** A poll that sends nothing: the run from the same store satisfies `Delivers` for the whole event list. */
  lemma SessionExtendsRun(s: Store, topic: string, st: SessionState, st': SessionState, events: seq<Event>, r: Run)
    requires Valid(s) && Readable(TopicBucket(s, topic).entries)
    requires |events| > 0 && st'.cursor == st.cursor && (st'.running ==> st.running)
    requires Delivers(s, topic, st', events[1..], r)
    requires |events| == 1 && st'.running ==>
      r.store == s && r.state == st' && AtLeast(TopicLog(s, topic), st'.cursor.idx) == []
    ensures Delivers(s, topic, st, events, r)
  {
    SessionExtends(TopicLog(r.store, topic), s.generationID, st, st', events, r.state, r.batches);
  }

  /** A poll that sends `batch`, the log from the cursor on, and moves the cursor to `c`, past its last index. */
  lemma DeliveredStepRun(s: Store, topic: string, st: SessionState, c: Cursor, batch: seq<Notification>,
                         events: seq<Event>, rest: Run)
    requires Valid(s) && s.scheme == FixedWidth && Readable(TopicBucket(s, topic).entries)
    requires TopicBucket(s, topic).sequence + |events| <= MaxUint64
    requires |events| > 0 && events[0].Poll? && st.running
    requires batch == AtLeast(TopicLog(s, topic), st.cursor.idx) && |batch| > 0
    requires c.genID == s.generationID && st.cursor.idx < c.idx <= TopicBucket(s, topic).sequence + 1
    requires forall n :: n in TopicLog(s, topic) ==> n.index < c.idx
    requires Delivers(s, topic, SessionState(c, true), events[1..], rest)
    requires |events| == 1 ==> rest == Run(s, SessionState(c, true), [])
    ensures Delivers(s, topic, st, events, Run(rest.store, rest.state, [batch] + rest.batches))
  {
    var l, l' := TopicLog(s, topic), TopicLog(rest.store, topic);
    TopicLogIncreasing(rest.store, topic);
    BatchIsRange(l, l', TopicBucket(s, topic).sequence, st.cursor.idx, c.idx);
    if |events| == 1 {
      AtLeastBeyond(l, c.idx);
    }
    SessionDelivered(l', s.generationID, st, c, batch, events, rest.state, rest.batches);
  }

  lemma LogGrowsRefl(s: Store, topic: string)
    requires Valid(s) && Readable(TopicBucket(s, topic).entries)
    ensures LogGrows(s, topic, s) && Issued(s, topic, s) == 0
  {
    var l := TopicLog(s, topic);
    assert l[|l|..] == [];
  }

  lemma LogGrowsTrans(s0: Store, s1: Store, s2: Store, topic: string)
    requires LogGrows(s0, topic, s1) && LogGrows(s1, topic, s2)
    ensures LogGrows(s0, topic, s2) && Issued(s0, topic, s2) == Issued(s0, topic, s1) + Issued(s1, topic, s2)
  {
    GrowsAboveTrans(TopicLog(s0, topic), TopicLog(s1, topic), TopicLog(s2, topic),
                    TopicBucket(s0, topic).sequence, TopicBucket(s1, topic).sequence);
  }

  lemma GrowsAboveTrans(l0: seq<Notification>, l1: seq<Notification>, l2: seq<Notification>, q0: nat, q1: nat)
    requires GrowsAbove(l0, l1, q0) && GrowsAbove(l1, l2, q1) && q0 <= q1
    ensures GrowsAbove(l0, l2, q0)
  {
    forall n | n in l2[|l0|..] ensures n.index > q0 {
      var i :| 0 <= i < |l2[|l0|..]| && l2[|l0|..][i] == n;
      if |l0| + i < |l1| {
        assert n == l1[|l0|..][i];
      } else {
        assert n == l2[|l1|..][|l0| + i - |l1|];
      }
    }
  }

  lemma GrowsBySnoc(l: seq<Notification>, n: Notification, q: nat)
    requires n.index > q
    ensures GrowsAbove(l, l + [n], q)
  {
    assert (l + [n])[|l|..] == [n];
  }

  /** An append keeps the topic readable and grows its log at the end, by at most one sequence number. */
  lemma ProduceGrowsLog(s: Store, topic: string, t: string, d: Payload, now: int)
    requires Valid(s) && s.scheme == FixedWidth && Readable(TopicBucket(s, topic).entries)
    requires TopicBucket(s, topic).sequence < MaxUint64
    ensures LogGrows(s, topic, Append(s, t, d, now)) && Issued(s, topic, Append(s, t, d, now)) <= 1
  {
    var s' := Append(s, t, d, now);
    var b := TopicBucket(s, topic);
    if t == topic {
      LogAfterAppend(b, d, now);
      GrowsBySnoc(Log(b.entries), Notification(b.sequence + 1, now, d), b.sequence);
    } else {
      assert TopicBucket(s', topic) == b;
      LogGrowsRefl(s, topic);
    }
  }

  lemma TopicLogIncreasing(s: Store, topic: string)
    requires Valid(s) && s.scheme == FixedWidth && Readable(TopicBucket(s, topic).entries)
    requires TopicBucket(s, topic).sequence <= MaxUint64
    ensures Increasing(TopicLog(s, topic))
  {
    BucketOfValid(s, topic);
    FixedWidthLogIncreasing(TopicBucket(s, topic).entries, TopicBucket(s, topic).sequence);
  }

  /**
   * A step that sends nothing, on the session side: the rest of the run
   * started from a state `st'` with the same cursor, running only if `st`
   * was (and then caught up, if the run ends here).
   */
  lemma SessionExtends(l: seq<Notification>, genID: string, st: SessionState, st': SessionState, events: seq<Event>,
                       end: SessionState, batches: seq<seq<Notification>>)
    requires |events| > 0 && st'.cursor == st.cursor && (st'.running ==> st.running)
    requires SessionDelivers(l, genID, st', events[1..], end, batches)
    requires |events| == 1 && end.running && events[0].Poll? ==> AtLeast(l, end.cursor.idx) == []
    ensures SessionDelivers(l, genID, st, events, end, batches)
  {
    if |events| > 1 {
      EndsWithPollTail(events);
    }
  }

  /**
   * A poll that sends a non-empty batch moves the cursor one past the
   * batch's last index, which is the log's last index, still within the
   * room `Ready` leaves for the rest of the run.
   */
  lemma CursorPastBatch(s: Store, topic: string, c: Cursor, appends: nat)
    requires Ready(s, topic, c, appends) && appends > 0
    requires |AtLeast(TopicLog(s, topic), c.idx)| > 0
    ensures var batch := AtLeast(TopicLog(s, topic), c.idx);
      && c.idx <= Last(batch).index
      && Last(batch).index <= TopicBucket(s, topic).sequence
      && (forall n :: n in TopicLog(s, topic) ==> n.index <= Last(batch).index)
      && Ready(s, topic, Cursor(s.generationID, Last(batch).index + 1), appends - 1)
  {
    var l := TopicLog(s, topic);
    var batch := AtLeast(l, c.idx);
    ReadAtCursor(s, topic, c);
    AtLeastLast(l, c.idx);
    assert Last(batch) == Last(l);
    assert Last(batch) in batch;
    BucketOfValid(s, topic);
    LogIndicesIssued(s.scheme, TopicBucket(s, topic));
    assert Last(l) in l;
    IncreasingUpToLast(l);
  }

  /**
   * A poll that sends `batch`, the log `l` from the cursor on, and moves
   * the cursor past its last index, on the session side: `l'` is the
   * final log, grown from `l` beyond its sequence `q`.
   */
  lemma SessionDelivered(l: seq<Notification>, genID: string, st: SessionState, c: Cursor, batch: seq<Notification>,
                         events: seq<Event>, end: SessionState, batches: seq<seq<Notification>>)
    requires |events| > 0 && events[0].Poll? && st.running
    requires Increasing(l) && |batch| > 0 && st.cursor.idx <= c.idx && c.genID == genID
    requires batch == Between(l, st.cursor.idx, c.idx)
    requires SessionDelivers(l, genID, SessionState(c, true), events[1..], end, batches)
    requires |events| == 1 ==> end == SessionState(c, true) && AtLeast(l, c.idx) == []
    ensures SessionDelivers(l, genID, st, events, end, [batch] + batches)
  {
    if |events| > 1 {
      EndsWithPollTail(events);
    }
    ConcatRanges(l, st.cursor.idx, c.idx, end.cursor.idx, batch, batches);
    NonEmptyCons(batch, batches);
  }

  /** A batch covering `[a, b)` followed by batches covering `[b, c)` covers `[a, c)`. */
  lemma ConcatRanges(l: seq<Notification>, a: nat, b: nat, c: nat, batch: seq<Notification>, batches: seq<seq<Notification>>)
    requires Increasing(l) && a <= b <= c
    requires batch == Between(l, a, b) && Concat(batches) == Between(l, b, c)
    ensures Concat([batch] + batches) == Between(l, a, c)
  {
    BetweenSplit(l, a, b, c);
    ConcatCons(batch, batches);
  }

  /** No message is empty. */
  predicate NonEmpty(batches: seq<seq<Notification>>) {
    forall i :: 0 <= i < |batches| ==> |batches[i]| > 0
  }

  lemma NonEmptyCons(batch: seq<Notification>, batches: seq<seq<Notification>>)
    requires |batch| > 0 && NonEmpty(batches)
    ensures NonEmpty([batch] + batches)
  {
    var bs := [batch] + batches;
    assert forall j :: 0 < j < |bs| ==> bs[j] == batches[j - 1];
  }

  /** The log from `k` on, when everything in it lies below `hi`, is the final log's range `[k, hi)`. */
  lemma BatchIsRange(l: seq<Notification>, l': seq<Notification>, q: nat, k: nat, hi: nat)
    requires GrowsAbove(l, l', q) && hi <= q + 1
    requires forall n :: n in l ==> n.index < hi
    ensures AtLeast(l, k) == Between(l', k, hi)
  {
    BetweenBelow(l, k, hi);
    assert l' == l + l'[|l|..];
    BetweenAppend(l, l'[|l|..], k, hi);
  }

  // ----- what the corrected loop delivers from a fresh store -----

  /** The store after the appends among `events`, in order. */
  function Replay(s: Store, events: seq<Event>): (r: Store)
    requires Valid(s)
    ensures Valid(r) && r.scheme == s.scheme && r.generationID == s.generationID
    decreases |events|
  {
    if |events| == 0 then s
    else if events[0].Produce? then Replay(Append(s, events[0].topic, events[0].data, events[0].now), events[1..])
    else Replay(s, events[1..])
  }

  /** The session does not write: the store a run ends with is the one its appends make. */
  lemma {:induction false} RunStoreIsReplay(s: Store, topic: string, st: SessionState, events: seq<Event>)
    requires Valid(s)
    ensures RunBolt(s, topic, st, events).store == Replay(s, events)
    decreases |events|
  {
    if |events| == 0 {
    } else if events[0].Produce? {
      RunStoreIsReplay(Append(s, events[0].topic, events[0].data, events[0].now), topic, st, events[1..]);
    } else if !st.running {
      RunStoreIsReplay(s, topic, st, events[1..]);
    } else {
      match StepPastLast(st.cursor, Get(s, topic, st.cursor.genID, st.cursor.idx), events[0].writeOk)
      case Idle(c) => RunStoreIsReplay(s, topic, SessionState(c, true), events[1..]);
      case Ended(_) => RunStoreIsReplay(s, topic, SessionState(st.cursor, false), events[1..]);
      case Delivered(c, _) => RunStoreIsReplay(s, topic, SessionState(c, true), events[1..]);
    }
  }

  /** The payloads producers appended to `topic`, in order. */
  function ProducedOn(topic: string, events: seq<Event>): seq<Payload>
    decreases |events|
  {
    if |events| == 0 then []
    else (if events[0].Produce? && events[0].topic == topic then [events[0].data] else []) + ProducedOn(topic, events[1..])
  }

  /** The log holds indices 1..n, one per sequence number issued. */
  predicate Dense(l: seq<Notification>, sequence: nat) {
    |l| == sequence && IndexedFromOne(l)
  }

  /**
   * From `s` to `r` the topic stays readable, its log grows by payloads
   * `ps` (at the end), and a log numbered 1..n stays numbered that way.
   */
  ghost predicate LogExtends(s: Store, topic: string, r: Store, ps: seq<Payload>) {
    && Readable(TopicBucket(s, topic).entries) && Readable(TopicBucket(r, topic).entries)
    && Payloads(TopicLog(r, topic)) == Payloads(TopicLog(s, topic)) + ps
    && (Dense(TopicLog(s, topic), TopicBucket(s, topic).sequence) ==>
          Dense(TopicLog(r, topic), TopicBucket(r, topic).sequence))
  }

  lemma LogExtendsTrans(s0: Store, s1: Store, s2: Store, topic: string, a: seq<Payload>, b: seq<Payload>, ab: seq<Payload>)
    requires LogExtends(s0, topic, s1, a) && LogExtends(s1, topic, s2, b) && ab == a + b
    ensures LogExtends(s0, topic, s2, ab)
  {
    PayloadsChain(Payloads(TopicLog(s0, topic)), Payloads(TopicLog(s1, topic)), Payloads(TopicLog(s2, topic)), a, b, ab);
  }

  /**
   * Replaying appends on a fixed-width topic grows its log by exactly the
   * payloads appended to that topic, in order, and a log numbered 1..n
   * stays numbered that way.
   */
  lemma {:induction false} ReplayLog(s: Store, topic: string, events: seq<Event>)
    requires Valid(s) && s.scheme == FixedWidth && Readable(TopicBucket(s, topic).entries)
    requires TopicBucket(s, topic).sequence + |events| <= MaxUint64
    ensures LogExtends(s, topic, Replay(s, events), ProducedOn(topic, events))
    decreases |events|
  {
    if |events| == 0 {
      assert Payloads(TopicLog(s, topic)) + [] == Payloads(TopicLog(s, topic));
    } else if events[0].Produce? {
      var e := events[0];
      var s' := Append(s, e.topic, e.data, e.now);
      ProduceReplayStep(s, topic, e.topic, e.data, e.now);
      ReplayLog(s', topic, events[1..]);
      LogExtendsTrans(s, s', Replay(s', events[1..]), topic,
                      if e.topic == topic then [e.data] else [], ProducedOn(topic, events[1..]), ProducedOn(topic, events));
    } else {
      ReplayLog(s, topic, events[1..]);
      assert ProducedOn(topic, events) == [] + ProducedOn(topic, events[1..]);
    }
  }

  /** One append, on the topic's log: it grows by the payload if it went to this topic, and keeps its numbering. */
  lemma ProduceReplayStep(s: Store, topic: string, t: string, d: Payload, now: int)
    requires Valid(s) && s.scheme == FixedWidth && Readable(TopicBucket(s, topic).entries)
    requires TopicBucket(s, topic).sequence < MaxUint64
    ensures TopicBucket(Append(s, t, d, now), topic).sequence <= TopicBucket(s, topic).sequence + 1
    ensures LogExtends(s, topic, Append(s, t, d, now), if t == topic then [d] else [])
  {
    var s' := Append(s, t, d, now);
    var b := TopicBucket(s, topic);
    if t == topic {
      var b' := AppendToBucket(FixedWidth, b, d, now);
      LogAfterAppend(b, d, now);
      SnocKeepsNumbering(Log(b.entries), Notification(b'.sequence, now, d), b.sequence);
    } else {
      assert TopicBucket(s', topic) == b;
      assert Payloads(TopicLog(s, topic)) + [] == Payloads(TopicLog(s, topic));
    }
  }

  lemma SnocKeepsNumbering(l: seq<Notification>, n: Notification, q: nat)
    requires n.index == q + 1
    ensures Payloads(l + [n]) == Payloads(l) + [n.data]
    ensures Dense(l, q) ==> Dense(l + [n], q + 1)
  {
  }

  lemma PayloadsChain(p0: seq<Payload>, p1: seq<Payload>, p2: seq<Payload>, a: seq<Payload>, b: seq<Payload>, ab: seq<Payload>)
    requires p1 == p0 + a && p2 == p1 + b && ab == a + b
    ensures p2 == p0 + ab
  {
  }

  /**
   * The corrected loop, end to end: a session opened at index 0 on a
   * fresh fixed-width store, under any generation ID (none at all, say),
   * with producers appending to any topics and the loop polling in any
   * interleaving. If it is still running after a final poll, the
   * notifications it delivered, concatenated in receipt order, carry
   * exactly the payloads appended to its topic in append order, numbered
   * 1..n, and once anything was delivered the session holds the store's
   * generation ID.
   */
  lemma CorrectedWatchDeliversEveryAppendInOrder(freshID: string, genID: string, topic: string, events: seq<Event>)
    requires |events| <= MaxUint64 && |events| > 0 && events[|events| - 1].Poll?
    ensures var r := RunBolt(Open(Volume(None, None), freshID, FixedWidth), topic,
                             SessionState(Cursor(genID, 0), true), events);
      r.state.running ==>
        && Payloads(Concat(r.batches)) == ProducedOn(topic, events)
        && (forall i :: 0 <= i < |Concat(r.batches)| ==> Concat(r.batches)[i].index == i + 1)
        && (|r.batches| > 0 ==> r.state.cursor.genID == freshID)
  {
    var s := Open(Volume(None, None), freshID, FixedWidth);
    OpenEmptyVolume(freshID, FixedWidth);
    assert TopicBucket(s, topic) == Bucket(0, []);
    DeliversFromEmptyTopic(s, topic, genID, events);
  }

  /** `CorrectedWatchDeliversEveryAppendInOrder` for any fixed-width store whose topic has no bucket yet. */
  lemma DeliversFromEmptyTopic(s: Store, topic: string, genID: string, events: seq<Event>)
    requires Valid(s) && s.scheme == FixedWidth && TopicBucket(s, topic) == Bucket(0, [])
    requires |events| <= MaxUint64 && EndsWithPoll(events)
    ensures var r := RunBolt(s, topic, SessionState(Cursor(genID, 0), true), events);
      r.state.running ==>
        && Payloads(Concat(r.batches)) == ProducedOn(topic, events)
        && (forall i :: 0 <= i < |Concat(r.batches)| ==> Concat(r.batches)[i].index == i + 1)
        && (|r.batches| > 0 ==> r.state.cursor.genID == s.generationID)
  {
    assert Payloads(TopicLog(s, topic)) == [];
    var st := SessionState(Cursor(genID, 0), true);
    CorrectedDeliveryInOrder(s, topic, st, events);
    var r := RunBolt(s, topic, st, events);
    RunStoreIsReplay(s, topic, st, events);
    ReplayLog(s, topic, events);
    assert [] + ProducedOn(topic, events) == ProducedOn(topic, events);
    assert Dense(TopicLog(s, topic), 0);
    var l := TopicLog(r.store, topic);
    assert Payloads(l) == ProducedOn(topic, events);
    assert Dense(l, TopicBucket(r.store, topic).sequence);
    if r.state.running {
      DeliveredWholeLog(l, r.state.cursor.idx, r.batches);
    }
  }

  /** Batches that cover a log up to a cursor beyond every index cover the whole log. */
  lemma DeliveredWholeLog(l: seq<Notification>, k: nat, batches: seq<seq<Notification>>)
    requires Concat(batches) == Between(l, 0, k) && AtLeast(l, k) == [] && NonEmpty(batches)
    ensures Concat(batches) == l
    ensures |batches| > 0 ==> k > 0
  {
    forall n | n in l ensures 0 <= n.index < k {
      assert n !in AtLeast(l, k);
    }
    AllInRange(l, 0, k);
    if |batches| > 0 {
      assert batches[0] <= Concat(batches);
      assert |Concat(batches)| > 0;
    }
  }
}
