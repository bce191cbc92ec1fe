/**
 * Properties of the bolt store across several operations: the log a
 * topic holds after a series of appends, what a read returns under each
 * key scheme, and garbage collection seen per topic.
 */
module StoreProperties {
  import opened Wrappers
  import opened Keys
  import opened OrderedMap
  import opened Notifications
  import opened BoltStore

  // ----- notification lists -----

  /** Indices strictly ascend along the list. */
  predicate Increasing(ns: seq<Notification>) {
    forall i, j :: 0 <= i < j < |ns| ==> ns[i].index < ns[j].index
  }

  /** The notifications whose index is at least `k`, in list order. */
  function AtLeast(ns: seq<Notification>, k: nat): (r: seq<Notification>)
    ensures forall n :: n in r <==> n in ns && n.index >= k
    decreases |ns|
  {
    if |ns| == 0 then []
    else
      assert forall n :: n in ns <==> n == ns[0] || n in ns[1..];
      (if ns[0].index >= k then [ns[0]] else []) + AtLeast(ns[1..], k)
  }

  /** The notifications whose index lies in `[lo, hi)`, in list order. */
  function Between(ns: seq<Notification>, lo: nat, hi: nat): (r: seq<Notification>)
    ensures forall n :: n in r <==> n in ns && lo <= n.index < hi
    decreases |ns|
  {
    if |ns| == 0 then []
    else
      assert forall n :: n in ns <==> n == ns[0] || n in ns[1..];
      (if lo <= ns[0].index < hi then [ns[0]] else []) + Between(ns[1..], lo, hi)
  }

  lemma IncreasingTail(ns: seq<Notification>)
    requires Increasing(ns) && |ns| > 0
    ensures Increasing(ns[1..])
    ensures forall n :: n in ns[1..] ==> ns[0].index < n.index
  {
    forall n | n in ns[1..] ensures ns[0].index < n.index {
      var j :| 0 <= j < |ns[1..]| && ns[1..][j] == n;
      assert ns[j + 1] == n;
    }
  }

  /** When every index lies below `hi`, the range `[lo, hi)` is everything from `lo` on. */
  lemma {:induction false} BetweenBelow(ns: seq<Notification>, lo: nat, hi: nat)
    requires forall n :: n in ns ==> n.index < hi
    ensures Between(ns, lo, hi) == AtLeast(ns, lo)
    decreases |ns|
  {
    if |ns| > 0 {
      assert forall n :: n in ns[1..] ==> n in ns;
      BetweenBelow(ns[1..], lo, hi);
    }
  }

  /** Nothing lies at or after a bound above every index. */
  lemma {:induction false} AtLeastBeyond(ns: seq<Notification>, k: nat)
    requires forall n :: n in ns ==> n.index < k
    ensures AtLeast(ns, k) == []
    decreases |ns|
  {
    if |ns| > 0 {
      assert forall n :: n in ns[1..] ==> n in ns;
      AtLeastBeyond(ns[1..], k);
    }
  }

  /** A range no element falls into is empty. */
  lemma {:induction false} BetweenNone(ns: seq<Notification>, lo: nat, hi: nat)
    requires forall n :: n in ns ==> n.index < lo || hi <= n.index
    ensures Between(ns, lo, hi) == []
    decreases |ns|
  {
    if |ns| > 0 {
      assert forall n :: n in ns[1..] ==> n in ns;
      BetweenNone(ns[1..], lo, hi);
    }
  }

  /** On an ascending list, adjacent ranges concatenate. */
  lemma {:induction false} BetweenSplit(ns: seq<Notification>, a: nat, b: nat, c: nat)
    requires Increasing(ns) && a <= b <= c
    ensures Between(ns, a, b) + Between(ns, b, c) == Between(ns, a, c)
    decreases |ns|
  {
    if |ns| > 0 {
      IncreasingTail(ns);
      BetweenSplit(ns[1..], a, b, c);
      var x := ns[0].index;
      if b <= x < c {
        BetweenNone(ns[1..], a, b);
        assert Between(ns, a, b) == [];
        assert Between(ns, b, c) == [ns[0]] + Between(ns[1..], b, c);
      } else if a <= x < b {
        assert Between(ns, a, b) == [ns[0]] + Between(ns[1..], a, b);
      }
    }
  }

  /** Entries appended at or beyond `hi` do not change the range `[lo, hi)`. */
  lemma {:induction false} BetweenAppend(ns: seq<Notification>, extra: seq<Notification>, lo: nat, hi: nat)
    requires forall n :: n in extra ==> n.index >= hi
    ensures Between(ns + extra, lo, hi) == Between(ns, lo, hi)
    decreases |ns|
  {
    if |ns| == 0 {
      assert ns + extra == extra;
      BetweenNone(extra, lo, hi);
    } else {
      assert (ns + extra)[1..] == ns[1..] + extra;
      BetweenAppend(ns[1..], extra, lo, hi);
    }
  }

  /** On an ascending list a non-empty selection from `k` on ends with the list's last element. */
  lemma {:induction false} AtLeastLast(ns: seq<Notification>, k: nat)
    requires Increasing(ns) && |AtLeast(ns, k)| > 0
    ensures AtLeast(ns, k)[|AtLeast(ns, k)| - 1] == ns[|ns| - 1]
    decreases |ns|
  {
    if |ns| > 1 {
      IncreasingTail(ns);
      var t := ns[1..];
      assert ns == [ns[0]] + t;
      AtLeastCons(ns[0], t, k);
      assert ns[|ns| - 1] == t[|t| - 1];
      if ns[0].index >= k {
        assert t[|t| - 1] in t;
      }
      AtLeastLast(t, k);
    }
  }

  // ----- the log held in a topic bucket -----

  /** The notifications of a readable bucket, in key order. */
  function Log(es: seq<Entry<Record>>): (ns: seq<Notification>)
    requires Readable(es)
    ensures |ns| == |es| && forall i :: 0 <= i < |es| ==> es[i].value == Marshalled(ns[i])
  {
    seq(|es|, i requires 0 <= i < |es| && es[i].value.Marshalled? => es[i].value.notification)
  }

  /** `ds` appended one after the other to a bucket, all at time `now`. */
  function AppendAllToBucket(scheme: KeyScheme, b: Bucket, ds: seq<Payload>, now: int): (b': Bucket)
    requires BucketValid(scheme, b)
    ensures BucketValid(scheme, b') && b'.sequence == b.sequence + |ds|
    decreases |ds|
  {
    if |ds| == 0 then b else AppendAllToBucket(scheme, AppendToBucket(scheme, b, ds[0], now), ds[1..], now)
  }

  /**
   * `ds` appended one after the other to `topic`, all at time `now`. Only
   * the topic's bucket changes, and it goes through the same appends as a
   * bucket on its own.
   */
  function AppendAll(s: Store, topic: string, ds: seq<Payload>, now: int): (r: Store)
    requires Valid(s)
    ensures Valid(r) && r.scheme == s.scheme && r.generationID == s.generationID
    ensures forall t :: t != topic ==> Find(r.root, t) == Find(s.root, t)
    ensures && BucketValid(s.scheme, TopicBucket(s, topic))
            && TopicBucket(r, topic) == AppendAllToBucket(s.scheme, TopicBucket(s, topic), ds, now)
    decreases |ds|
  {
    BucketOfValid(s, topic);
    if |ds| == 0 then s
    else
      var s1 := Append(s, topic, ds[0], now);
      assert AppendAllToBucket(s.scheme, TopicBucket(s, topic), ds, now)
          == AppendAllToBucket(s.scheme, TopicBucket(s1, topic), ds[1..], now);
      AppendAll(s1, topic, ds[1..], now)
  }

  /** The notifications a series of appends creates, numbered from `start + 1`. */
  function Appended(start: nat, ds: seq<Payload>, now: int): (ns: seq<Notification>)
    ensures |ns| == |ds| && forall j :: 0 <= j < |ds| ==> ns[j] == Notification(start + j + 1, now, ds[j])
  {
    seq(|ds|, j requires 0 <= j < |ds| => Notification(start + j + 1, now, ds[j]))
  }

  lemma AppendedCons(start: nat, next: nat, ds: seq<Payload>, now: int)
    requires |ds| > 0 && next == start + 1
    ensures Appended(start, ds, now) == [Notification(next, now, ds[0])] + Appended(next, ds[1..], now)
  {
    var l, r := Appended(start, ds, now), [Notification(next, now, ds[0])] + Appended(next, ds[1..], now);
    forall j | 0 <= j < |ds| ensures l[j] == r[j] {
      if j > 0 {
        assert r[j] == Appended(next, ds[1..], now)[j - 1];
        assert ds[1..][j - 1] == ds[j];
      }
    }
  }

  /** Some entry of `es` holds `n`. */
  predicate Stores(es: seq<Entry<Record>>, n: Notification) {
    exists i :: 0 <= i < |es| && es[i].value == Marshal(n)
  }

  /** Every entry of `before` is still in `after`. */
  predicate Keeps(before: seq<Entry<Record>>, after: seq<Entry<Record>>) {
    forall e :: e in before ==> e in after
  }

  /** One append keeps the bucket's entries, adds the new notification and keeps the bucket readable. */
  lemma AppendStep(scheme: KeyScheme, b: Bucket, d: Payload, now: int)
    requires BucketValid(scheme, b)
    ensures var b' := AppendToBucket(scheme, b, d, now);
      && Keeps(b.entries, b'.entries)
      && Stores(b'.entries, Notification(b'.sequence, now, d))
      && (Readable(b.entries) ==> Readable(b'.entries))
  {
    var b' := AppendToBucket(scheme, b, d, now);
    var e :| e in b'.entries && e.value == Marshal(Notification(b'.sequence, now, d));
    var i :| 0 <= i < |b'.entries| && b'.entries[i] == e;
    if Readable(b.entries) {
      forall i | 0 <= i < |b'.entries| ensures b'.entries[i].value.Marshalled? {
        assert b'.entries[i] in b'.entries;
      }
    }
  }

  lemma StoresKept(es: seq<Entry<Record>>, es': seq<Entry<Record>>, n: Notification)
    requires Stores(es, n) && Keeps(es, es')
    ensures Stores(es', n)
  {
    var i :| 0 <= i < |es| && es[i].value == Marshal(n);
    assert es[i] in es';
    var j :| 0 <= j < |es'| && es'[j] == es[i];
  }

  /**
   * After a series of appends, every earlier entry is still there and the
   * j-th payload is stored with index `sequence + j + 1`, whatever the key
   * scheme. A bucket that was readable stays readable.
   */
  lemma {:induction false} AppendAllEntries(scheme: KeyScheme, b: Bucket, ds: seq<Payload>, now: int)
    requires BucketValid(scheme, b)
    ensures var b' := AppendAllToBucket(scheme, b, ds, now);
      && Keeps(b.entries, b'.entries)
      && (forall j :: 0 <= j < |ds| ==> Stores(b'.entries, Appended(b.sequence, ds, now)[j]))
      && (Readable(b.entries) ==> Readable(b'.entries))
    decreases |ds|
  {
    if |ds| > 0 {
      var b1 := AppendToBucket(scheme, b, ds[0], now);
      AppendStep(scheme, b, ds[0], now);
      AppendAllEntries(scheme, b1, ds[1..], now);
      var b' := AppendAllToBucket(scheme, b1, ds[1..], now);
      var ns, rest := Appended(b.sequence, ds, now), Appended(b1.sequence, ds[1..], now);
      AppendedCons(b.sequence, b1.sequence, ds, now);
      forall j | 0 <= j < |ds| ensures Stores(b'.entries, ns[j]) {
        if j == 0 {
          StoresKept(b1.entries, b'.entries, ns[0]);
        } else {
          assert ns[j] == rest[j - 1];
        }
      }
    }
  }

  /**
   * With fixed-width keys an append lands after every existing entry, so
   * the bucket's log grows at its end by the new notification.
   */
  lemma LogAfterAppend(b: Bucket, d: Payload, now: int)
    requires BucketValid(FixedWidth, b) && Readable(b.entries) && b.sequence < MaxUint64
    ensures var b' := AppendToBucket(FixedWidth, b, d, now);
      && Readable(b'.entries)
      && Log(b'.entries) == Log(b.entries) + [Notification(b'.sequence, now, d)]
  {
    FixedWidthPutLast(b.entries, b.sequence, d, now);
  }

  /** In a fixed-width bucket the key of the next index goes after every entry. */
  lemma FixedWidthPutLast(es: seq<Entry<Record>>, sequence: nat, d: Payload, now: int)
    requires Readable(es) && Sorted(es) && sequence < MaxUint64
    requires forall i :: 0 <= i < |es| ==> EntryValid(FixedWidth, sequence, es[i])
    ensures var n := Notification(sequence + 1, now, d);
      var es' := Put(es, KeyFromIndex(FixedWidth, n.index), Marshal(n));
      Readable(es') && Log(es') == Log(es) + [n]
  {
    var n := Notification(sequence + 1, now, d);
    var key := KeyFromIndex(FixedWidth, n.index);
    forall i | 0 <= i < |es| ensures Less(es[i].key, key) {
      assert EntryValid(FixedWidth, sequence, es[i]);
      PaddedOrder(es[i].value.notification.index, n.index);
    }
    PutAfterAll(es, key, Marshal(n));
    LogSnoc(es, Entry(key, Marshal(n)));
  }

  lemma LogSnoc(es: seq<Entry<Record>>, e: Entry<Record>)
    requires Readable(es) && e.value.Marshalled?
    ensures Readable(es + [e]) && Log(es + [e]) == Log(es) + [e.value.notification]
  {
    assert Readable(es + [e]) by {
      forall i | 0 <= i < |es + [e]| ensures (es + [e])[i].value.Marshalled? {
        if i < |es| {
          assert (es + [e])[i] == es[i];
        }
      }
    }
  }

  lemma LogChain(l0: seq<Notification>, l1: seq<Notification>, l2: seq<Notification>,
                 n0: Notification, rest: seq<Notification>, all: seq<Notification>)
    requires l1 == l0 + [n0] && l2 == l1 + rest && all == [n0] + rest
    ensures l2 == l0 + all
  {
  }

  /** With fixed-width keys a series of appends extends the log by exactly those notifications, in order. */
  lemma {:induction false} LogAfterAppendAll(b: Bucket, ds: seq<Payload>, now: int)
    requires BucketValid(FixedWidth, b) && Readable(b.entries)
    requires b.sequence + |ds| <= MaxUint64
    ensures var es' := AppendAllToBucket(FixedWidth, b, ds, now).entries;
      && Readable(es')
      && Log(es') == Log(b.entries) + Appended(b.sequence, ds, now)
    decreases |ds|
  {
    if |ds| == 0 {
      assert Appended(b.sequence, ds, now) == [];
      assert Log(b.entries) + [] == Log(b.entries);
    } else {
      var b1 := AppendToBucket(FixedWidth, b, ds[0], now);
      var n0 := Notification(b1.sequence, now, ds[0]);
      LogAfterAppend(b, ds[0], now);
      LogAfterAppendAll(b1, ds[1..], now);
      var es' := AppendAllToBucket(FixedWidth, b1, ds[1..], now).entries;
      AppendedCons(b.sequence, b1.sequence, ds, now);
      LogChain(Log(b.entries), Log(b1.entries), Log(es'), n0, Appended(b1.sequence, ds[1..], now), Appended(b.sequence, ds, now));
      assert Readable(es') && Log(es') == Log(b.entries) + Appended(b.sequence, ds, now);
    }
  }

  // ----- what a read returns under each key scheme -----

  /**
   * When a key `key` sits, in byte order, exactly between the entries with
   * index below `k` and the others, a seek to it keeps exactly the
   * notifications with index at least `k`.
   */
  lemma {:induction false} SeekSelectsIndices(es: seq<Entry<Record>>, key: Key, k: nat)
    requires Readable(es)
    requires forall i :: 0 <= i < |es| ==> (Less(es[i].key, key) <==> es[i].value.notification.index < k)
    ensures Readable(AtOrAfter(es, key))
    ensures Log(AtOrAfter(es, key)) == AtLeast(Log(es), k)
    decreases |es|
  {
    var sel := AtOrAfter(es, key);
    if |es| > 0 {
      var e, rest := es[0], es[1..];
      var n := e.value.notification;
      SplitTail(es, key, k);
      SeekSelectsIndices(rest, key, k);
      LogCons(es);
      AtOrAfterCons(es, key);
      AtLeastCons(n, Log(rest), k);
      if n.index >= k {
        LogPrepend(e, AtOrAfter(rest, key));
      }
    }
  }

  lemma SplitTail(es: seq<Entry<Record>>, key: Key, k: nat)
    requires Readable(es) && |es| > 0
    requires forall i :: 0 <= i < |es| ==> (Less(es[i].key, key) <==> es[i].value.notification.index < k)
    ensures Readable(es[1..])
    ensures forall i :: 0 <= i < |es[1..]| ==> (Less(es[1..][i].key, key) <==> es[1..][i].value.notification.index < k)
  {
    assert forall i :: 0 <= i < |es[1..]| ==> es[1..][i] == es[i + 1];
  }

  /** A readable list decomposes into its first notification and the log of the rest. */
  lemma LogCons(es: seq<Entry<Record>>)
    requires Readable(es) && |es| > 0
    ensures Readable(es[1..]) && Log(es) == [es[0].value.notification] + Log(es[1..])
  {
    assert forall i :: 0 <= i < |es[1..]| ==> es[1..][i] == es[i + 1];
  }

  lemma LogPrepend(e: Entry<Record>, es: seq<Entry<Record>>)
    requires Readable(es) && e.value.Marshalled?
    ensures Readable([e] + es) && Log([e] + es) == [e.value.notification] + Log(es)
  {
    assert forall i :: 0 < i < |[e] + es| ==> ([e] + es)[i] == es[i - 1];
  }

  lemma AtLeastCons(n: Notification, ns: seq<Notification>, k: nat)
    ensures AtLeast([n] + ns, k) == (if n.index >= k then [n] else []) + AtLeast(ns, k)
  {
    assert ([n] + ns)[1..] == ns;
  }

  /** In a fixed-width bucket the key of `k` separates the entries with index below `k` from the rest. */
  lemma FixedWidthKeysSplit(es: seq<Entry<Record>>, sequence: nat, k: nat)
    requires Readable(es) && sequence <= MaxUint64 && k <= MaxUint64
    requires forall i :: 0 <= i < |es| ==> EntryValid(FixedWidth, sequence, es[i])
    ensures forall i :: 0 <= i < |es| ==>
      (Less(es[i].key, KeyFromIndex(FixedWidth, k)) <==> es[i].value.notification.index < k)
  {
    forall i | 0 <= i < |es|
      ensures Less(es[i].key, KeyFromIndex(FixedWidth, k)) <==> es[i].value.notification.index < k
    {
      assert EntryValid(FixedWidth, sequence, es[i]);
      PaddedOrder(es[i].value.notification.index, k);
    }
  }

  /** Fixed-width keys ascend in index order, so the log ascends too. */
  lemma FixedWidthLogIncreasing(es: seq<Entry<Record>>, sequence: nat)
    requires Readable(es) && Sorted(es) && sequence <= MaxUint64
    requires forall i :: 0 <= i < |es| ==> EntryValid(FixedWidth, sequence, es[i])
    ensures Increasing(Log(es))
  {
    var ns := Log(es);
    forall i, j | 0 <= i < j < |ns| ensures ns[i].index < ns[j].index {
      assert EntryValid(FixedWidth, sequence, es[i]) && EntryValid(FixedWidth, sequence, es[j]);
      PaddedOrder(ns[i].index, ns[j].index);
    }
  }

  /**
   * With fixed-width keys a read with the store's own generation ID
   * returns exactly the notifications with index at least `fromIndex`,
   * in ascending index order.
   */
  lemma FixedWidthGetIsIndexRange(s: Store, topic: string, fromIndex: nat)
    requires Valid(s) && s.scheme == FixedWidth
    requires Readable(TopicBucket(s, topic).entries)
    requires TopicBucket(s, topic).sequence <= MaxUint64 && fromIndex <= MaxUint64
    ensures Increasing(Log(TopicBucket(s, topic).entries))
    ensures Get(s, topic, s.generationID, fromIndex) ==
      Success(NotificationsResponse(s.generationID, AtLeast(Log(TopicBucket(s, topic).entries), fromIndex)))
  {
    var b := TopicBucket(s, topic);
    BucketOfValid(s, topic);
    FixedWidthLogIncreasing(b.entries, b.sequence);
    FixedWidthKeysSplit(b.entries, b.sequence, fromIndex);
    SeekSelectsIndices(b.entries, KeyFromIndex(FixedWidth, fromIndex), fromIndex);
    var vis := Visible(s, topic, s.generationID, fromIndex);
    var r := Get(s, topic, s.generationID, fromIndex);
    assert r.Success?;
    assert r.value.notifications == Log(vis);
  }

  /** A read of a readable bucket succeeds. */
  lemma ReadableGet(s: Store, topic: string, genID: string, fromIndex: nat)
    requires Valid(s) && Readable(TopicBucket(s, topic).entries)
    ensures Get(s, topic, genID, fromIndex).Success?
  {
    var vis := Visible(s, topic, genID, fromIndex);
    forall i | 0 <= i < |vis| ensures vis[i].value.Marshalled? {
      assert vis[i] in TopicBucket(s, topic).entries;
    }
  }

  /**
   * A read with any other generation ID returns the whole log in key
   * order, whatever `fromIndex` is.
   */
  lemma StaleGenerationReadsAll(s: Store, topic: string, genID: string, fromIndex: nat)
    requires Valid(s) && genID != s.generationID
    requires Readable(TopicBucket(s, topic).entries)
    ensures Get(s, topic, genID, fromIndex) ==
      Success(NotificationsResponse(s.generationID, Log(TopicBucket(s, topic).entries)))
  {
    var r := Get(s, topic, genID, fromIndex);
    assert r.value.notifications == Log(TopicBucket(s, topic).entries);
  }

  /**
   * A topic filled by `ds` on a fresh fixed-width volume reads back, from
   * index 0, as exactly `ds` with indices 1..n in append order (including
   * past nine entries).
   */
  lemma FixedWidthReadsAppendsInOrder(freshID: string, topic: string, ds: seq<Payload>, now: int)
    requires |ds| <= MaxUint64
    ensures var s := AppendAll(Open(Volume(None, None), freshID, FixedWidth), topic, ds, now);
      Get(s, topic, freshID, 0) == Success(NotificationsResponse(freshID, Appended(0, ds, now)))
  {
    var s0 := Open(Volume(None, None), freshID, FixedWidth);
    var b0 := TopicBucket(s0, topic);
    assert b0 == Bucket(0, []);
    LogAfterAppendAll(b0, ds, now);
    var s := AppendAll(s0, topic, ds, now);
    var ns := Log(TopicBucket(s, topic).entries);
    assert ns == Appended(0, ds, now);
    FixedWidthGetIsIndexRange(s, topic, 0);
    AtLeastAll(ns, 0);
  }

  /** When every index is at least `k`, the selection keeps everything. */
  lemma {:induction false} AtLeastAll(ns: seq<Notification>, k: nat)
    requires forall n :: n in ns ==> n.index >= k
    ensures AtLeast(ns, k) == ns
    decreases |ns|
  {
    if |ns| > 0 {
      assert forall n :: n in ns[1..] ==> n in ns;
      AtLeastAll(ns[1..], k);
    }
  }

  lemma {:induction false} AllInRange(ns: seq<Notification>, lo: nat, hi: nat)
    requires forall n :: n in ns ==> lo <= n.index < hi
    ensures Between(ns, lo, hi) == ns
    decreases |ns|
  {
    if |ns| > 0 {
      assert forall n :: n in ns[1..] ==> n in ns;
      AllInRange(ns[1..], lo, hi);
    }
  }

  /**
   * With decimal-text keys the key of 10 sorts before the key of 2, so a
   * read from index 2 with the store's own generation ID never returns
   * the notification with index 10.
   */
  lemma DecimalSeekSkips(s: Store, topic: string, n: Notification)
    requires Valid(s) && s.scheme == DecimalText && n.index == 10
    ensures Get(s, topic, s.generationID, 2).Success? ==> n !in Get(s, topic, s.generationID, 2).value.notifications
  {
    var r := Get(s, topic, s.generationID, 2);
    if r.Success? {
      var ns := r.value.notifications;
      forall i | 0 <= i < |ns| ensures ns[i].index != 10 {
        assert Visible(s, topic, s.generationID, 2)[i].value == Marshalled(ns[i]);
        VisibleFromTwoSkipsTen(s, topic, i);
      }
    }
  }

  /** An entry visible from index 2 under decimal keys does not hold index 10. */
  lemma VisibleFromTwoSkipsTen(s: Store, topic: string, i: nat)
    requires Valid(s) && s.scheme == DecimalText
    requires i < |Visible(s, topic, s.generationID, 2)|
    requires Visible(s, topic, s.generationID, 2)[i].value.Marshalled?
    ensures Visible(s, topic, s.generationID, 2)[i].value.notification.index != 10
  {
    var e := Visible(s, topic, s.generationID, 2)[i];
    var b := TopicBucket(s, topic);
    BucketOfValid(s, topic);
    assert e in b.entries && !Less(e.key, Decimal(2));
    var j :| 0 <= j < |b.entries| && b.entries[j] == e;
    assert EntryValid(DecimalText, b.sequence, b.entries[j]);
    DecimalKeyNotBelowTwo(b.sequence, e);
  }

  /** A decimal-keyed entry whose key is not below the key of 2 does not hold index 10. */
  lemma DecimalKeyNotBelowTwo(sequence: nat, e: Entry<Record>)
    requires EntryValid(DecimalText, sequence, e) && e.value.Marshalled? && !Less(e.key, Decimal(2))
    ensures e.value.notification.index != 10
  {
    DecimalOrderAcrossWidths();
  }

  /**
   * The concrete case: ten payloads appended to a fresh decimal-text
   * volume. The tenth is stored under index 10, the read from index 2
   * succeeds, and it does not contain it.
   */
  lemma DecimalKeysSkipIndexTen(freshID: string, topic: string, ds: seq<Payload>, now: int)
    requires |ds| == 10
    ensures var s := AppendAll(Open(Volume(None, None), freshID, DecimalText), topic, ds, now);
      && Stores(TopicBucket(s, topic).entries, Notification(10, now, ds[9]))
      && Get(s, topic, freshID, 2).Success?
      && Notification(10, now, ds[9]) !in Get(s, topic, freshID, 2).value.notifications
  {
    var s0 := Open(Volume(None, None), freshID, DecimalText);
    assert TopicBucket(s0, topic) == Bucket(0, []);
    AppendAllEntries(DecimalText, Bucket(0, []), ds, now);
    var s := AppendAll(s0, topic, ds, now);
    var es := TopicBucket(s, topic).entries;
    assert Appended(0, ds, now)[9] == Notification(10, now, ds[9]);
    assert Stores(es, Notification(10, now, ds[9]));
    ReadableGet(s, topic, freshID, 2);
    DecimalSeekSkips(s, topic, Notification(10, now, ds[9]));
  }

  /**
   * Garbage collection seen per topic: a topic keeps its bucket and its
   * sequence counter (so indices are never reused), and its entries are
   * exactly the unexpired ones.
   */
  lemma GcPerTopic(s: Store, olderThan: int, topic: string)
    requires Valid(s)
    ensures var r := Gc(s, olderThan);
      r.deleted.Success? ==>
        && (HasKey(r.store.root, topic) <==> HasKey(s.root, topic))
        && TopicBucket(r.store, topic).sequence == TopicBucket(s, topic).sequence
        && (forall e :: e in TopicBucket(r.store, topic).entries <==>
              e in TopicBucket(s, topic).entries && !Expired(e, olderThan))
  {
    var r := Gc(s, olderThan);
    if r.deleted.Success? {
      var root, root' := s.root, r.store.root;
      var i := FindAligned(root, root', topic);
      if Find(root, topic).Some? {
        assert r.store.root[i].value.sequence == s.root[i].value.sequence;
      }
    }
  }
}
