/**
 * The watch loop run against the in-memory test store: a session is
 * driven by a sequence of events (a producer appends, or the loop wakes up
 * and polls), and everything it delivers is collected.
 */
module FakeDelivery {
  import opened Wrappers
  import opened Notifications
  import opened Watch
  import TestStore

  /** The end of a run: the store, the session, and the notification lists sent, in order. */
  datatype Run = Run(store: TestStore.MemoryStore, state: SessionState, batches: seq<seq<Notification>>)

  /**
   * Runs the session on `topic` through `events` against the test store:
   * the store only grows and stays numbered 1..n, the session keeps the
   * generation ID it was started with, and a stopped loop never restarts.
   */
  function RunFake(s: TestStore.MemoryStore, topic: string, st: SessionState, events: seq<Event>): (r: Run)
    requires IndexedFromOne(s.notifications) && st.cursor.idx <= |s.notifications|
    ensures IndexedFromOne(r.store.notifications) && s.notifications <= r.store.notifications
    ensures r.state.cursor.genID == st.cursor.genID
    ensures r.state.running ==> st.running
    decreases |events|
  {
    if |events| == 0 then Run(s, st, [])
    else
      match events[0]
      case Produce(t, d, now) => RunFake(TestStore.Append(s, t, d, now), topic, st, events[1..])
      case Poll(ok) =>
        if !st.running then RunFake(s, topic, st, events[1..])
        else
          var resp := TestStore.Get(s, topic, st.cursor.genID, st.cursor.idx);
          match Step(st.cursor, resp, ok)
          case Idle(c) => RunFake(s, topic, SessionState(c, true), events[1..])
          case Ended(_) => RunFake(s, topic, SessionState(st.cursor, false), events[1..])
          case Delivered(c, m) =>
            var rest := RunFake(s, topic, SessionState(c, true), events[1..]);
            Run(rest.store, rest.state, [m.notifications] + rest.batches)
  }

  /**
   * What a run from store `s` and session `st` through `events` must
   * satisfy: the store only grows (by the produced payloads, keeping its
   * numbering), the cursor only moves forward within the store, the
   * concatenated batches are exactly the entries between the starting and
   * the final cursor, the generation ID is never replaced, a stopped loop
   * never restarts, every message is non-empty, and a session still
   * running after a final poll has caught up with the store.
   */
  ghost predicate InOrder(s: TestStore.MemoryStore, st: SessionState, events: seq<Event>, r: Run) {
    && IndexedFromOne(r.store.notifications)
    && s.notifications <= r.store.notifications
    && Payloads(r.store.notifications) == Payloads(s.notifications) + Produced(events)
    && st.cursor.idx <= r.state.cursor.idx <= |r.store.notifications|
    && Concat(r.batches) == r.store.notifications[st.cursor.idx..r.state.cursor.idx]
    && r.state.cursor.genID == st.cursor.genID
    && (r.state.running ==> st.running)
    && (forall i :: 0 <= i < |r.batches| ==> |r.batches[i]| > 0)
    && (r.state.running && |events| > 0 && events[|events| - 1].Poll? ==>
          r.state.cursor.idx == |r.store.notifications|)
  }

  /**
   * Against the test store the loop delivers without gaps, duplicates or
   * reordering (see `InOrder`).
   */
  lemma {:induction false} FakeDeliveryInOrder(s: TestStore.MemoryStore, topic: string, st: SessionState, events: seq<Event>)
    requires IndexedFromOne(s.notifications) && st.cursor.idx <= |s.notifications|
    ensures InOrder(s, st, events, RunFake(s, topic, st, events))
    decreases |events|
  {
    if |events| == 0 {
      assert s.notifications[st.cursor.idx..st.cursor.idx] == [];
      return;
    }
    var tail := events[1..];
    match events[0]
    case Produce(t, d, now) =>
      var s' := TestStore.Append(s, t, d, now);
      FakeDeliveryInOrder(s', topic, st, tail);
      ProduceStep(s, st, events, s', RunFake(s', topic, st, tail));
    case Poll(ok) =>
      if !st.running {
        FakeDeliveryInOrder(s, topic, st, tail);
        SameStoreStep(s, st, st, events, RunFake(s, topic, st, tail));
      } else {
        var resp := TestStore.Get(s, topic, st.cursor.genID, st.cursor.idx);
        match Step(st.cursor, resp, ok)
        case Idle(c) =>
          FakeDeliveryInOrder(s, topic, SessionState(c, true), tail);
          SameStoreStep(s, st, SessionState(c, true), events, RunFake(s, topic, SessionState(c, true), tail));
        case Ended(_) =>
          FakeDeliveryInOrder(s, topic, SessionState(st.cursor, false), tail);
          SameStoreStep(s, st, SessionState(st.cursor, false), events, RunFake(s, topic, SessionState(st.cursor, false), tail));
        case Delivered(c, m) =>
          assert m.notifications == s.notifications[st.cursor.idx..];
          FakeDeliveryInOrder(s, topic, SessionState(c, true), tail);
          DeliveredStep(s, st, c, m.notifications, events, RunFake(s, topic, SessionState(c, true), tail));
    }
  }

  /** An append: the run from the grown store satisfies `InOrder` for the whole event list. */
  lemma ProduceStep(s: TestStore.MemoryStore, st: SessionState, events: seq<Event>, s': TestStore.MemoryStore, r: Run)
    requires |events| > 0 && events[0].Produce?
    requires s' == TestStore.Append(s, events[0].topic, events[0].data, events[0].now)
    requires st.cursor.idx <= |s.notifications|
    requires InOrder(s', st, events[1..], r)
    ensures InOrder(s, st, events, r)
  {
    var tail := events[1..];
    assert |tail| > 0 ==> events[|events| - 1] == tail[|tail| - 1];
    assert Produced(events) == [events[0].data] + Produced(tail);
    assert Payloads(s'.notifications) == Payloads(s.notifications) + [events[0].data];
    assert s.notifications <= s'.notifications;
  }

  /** A poll that sends nothing: the store is unchanged and the batches are those of the rest of the run. */
  lemma SameStoreStep(s: TestStore.MemoryStore, st: SessionState, st': SessionState, events: seq<Event>, rest: Run)
    requires |events| > 0 && events[0].Poll?
    requires st'.cursor == st.cursor
    requires st'.running ==> st.running && st.cursor.idx == |s.notifications|
    requires InOrder(s, st', events[1..], rest)
    ensures InOrder(s, st, events, rest)
  {
    var tail := events[1..];
    assert |tail| > 0 ==> events[|events| - 1] == tail[|tail| - 1];
    assert Produced(events) == Produced(tail);
  }

  /** A poll that sends `batch`, the store's entries from the cursor on, and moves the cursor to the end of the store. */
  lemma DeliveredStep(s: TestStore.MemoryStore, st: SessionState, c: Cursor, batch: seq<Notification>, events: seq<Event>, rest: Run)
    requires |events| > 0 && events[0].Poll?
    requires st.running && st.cursor.idx < |s.notifications|
    requires batch == s.notifications[st.cursor.idx..]
    requires c == Cursor(st.cursor.genID, |s.notifications|)
    requires InOrder(s, SessionState(c, true), events[1..], rest)
    ensures InOrder(s, st, events, Run(rest.store, rest.state, [batch] + rest.batches))
  {
    var tail := events[1..];
    assert |tail| > 0 ==> events[|events| - 1] == tail[|tail| - 1];
    assert Produced(events) == Produced(tail);
    var ns, all := s.notifications, rest.store.notifications;
    var i, k := st.cursor.idx, rest.state.cursor.idx;
    assert ns == all[..|ns|];
    assert batch == all[i..|ns|];
    ConcatCons(batch, rest.batches);
    SliceJoin(all, i, |ns|, k);
    var bs := [batch] + rest.batches;
    assert forall j :: 0 < j < |bs| ==> bs[j] == rest.batches[j - 1];
  }

  lemma SliceJoin(all: seq<Notification>, i: nat, m: nat, k: nat)
    requires i <= m <= k <= |all|
    ensures all[i..m] + all[m..k] == all[i..k]
  {
  }

  /**
   * The test's scenario: a session opened at index 0 on an empty test
   * store, with producers appending and the loop polling in any
   * interleaving. If the session is still running after a final poll, the
   * notifications it delivered, concatenated in receipt order, carry
   * exactly the appended payloads in append order, numbered 1..n.
   */
  lemma WatchDeliversEveryAppendInOrder(genID: string, topic: string, events: seq<Event>)
    requires |events| > 0 && events[|events| - 1].Poll?
    ensures var r := RunFake(TestStore.MemoryStore([]), topic, SessionState(Cursor(genID, 0), true), events);
      r.state.running ==>
        && Concat(r.batches) == r.store.notifications
        && Payloads(Concat(r.batches)) == Produced(events)
        && forall i :: 0 <= i < |Concat(r.batches)| ==> Concat(r.batches)[i].index == i + 1
  {
    var s := TestStore.MemoryStore([]);
    FakeDeliveryInOrder(s, topic, SessionState(Cursor(genID, 0), true), events);
    var r := RunFake(s, topic, SessionState(Cursor(genID, 0), true), events);
    assert r.store.notifications[0..|r.store.notifications|] == r.store.notifications;
  }
}
