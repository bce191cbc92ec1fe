/**
 * The bolt-backed notification store: one metadata bucket holding the
 * generation ID and one root bucket holding a sub-bucket per topic, each
 * mapping a key derived from the per-topic sequence number to a
 * serialised notification.
 *
 * Every operation is one engine transaction and is modelled as a pure
 * function from the store before to the store after (all-or-nothing).
 */
module BoltStore {
  import opened Wrappers
  import opened Keys
  import opened OrderedMap
  import opened Notifications

  /** Key of the generation ID inside the metadata bucket. */
  const KeyGenerationID: string := "generationID"

  /**
   * How a sequence number becomes a bucket key. `DecimalText` is the
   * encoding the store uses (variable-length decimal text);
   * `FixedWidth` is the zero-padded encoding that keeps byte order equal
   * to numeric order.
   */
  datatype KeyScheme = DecimalText | FixedWidth

  /** The bucket key of sequence number `idx`; its digits always denote `idx`, so no two indices share a key. */
  function KeyFromIndex(scheme: KeyScheme, idx: nat): (k: Key)
    ensures AllDigits(k) && Value(k) == idx
  {
    match scheme
    case DecimalText => Decimal(idx)
    case FixedWidth => Padded(idx)
  }

  /**
   * Key order against index order. Distinct indices always get distinct
   * keys. With fixed-width keys byte order is numeric order for every pair
   * of `uint64` indices; with decimal text the two orders are guaranteed to
   * agree only when both indices have the same number of digits.
   */
  lemma KeyOrder(scheme: KeyScheme, a: nat, b: nat)
    ensures KeyFromIndex(scheme, a) == KeyFromIndex(scheme, b) <==> a == b
    ensures scheme == FixedWidth && a <= MaxUint64 && b <= MaxUint64 ==>
      (Less(KeyFromIndex(scheme, a), KeyFromIndex(scheme, b)) <==> a < b)
    ensures scheme == DecimalText && |Decimal(a)| == |Decimal(b)| ==>
      (Less(KeyFromIndex(scheme, a), KeyFromIndex(scheme, b)) <==> a < b)
  {
    if scheme == FixedWidth && a <= MaxUint64 && b <= MaxUint64 {
      PaddedOrder(a, b);
    }
    if scheme == DecimalText && |Decimal(a)| == |Decimal(b)| {
      DecimalOrderWithinWidth(a, b);
    }
  }

  /** Every record of a run of entries decodes. */
  predicate Readable(es: seq<Entry<Record>>) {
    forall i :: 0 <= i < |es| ==> es[i].value.Marshalled?
  }

  /** A topic bucket: the engine's per-bucket sequence counter and the key-ordered entries. */
  datatype Bucket = Bucket(sequence: nat, entries: seq<Entry<Record>>)

  /** The root bucket: one sub-bucket per topic, ordered by topic name. */
  type Root = seq<Entry<Bucket>>

  /** What is on disk before the store is opened: either bucket may be missing. */
  datatype Volume = Volume(metadata: Option<map<string, string>>, notifications: Option<Root>)

  /** An open store: its key scheme, its generation ID and the buckets' contents. */
  datatype Store = Store(scheme: KeyScheme, generationID: string, metadata: map<string, string>, root: Root)

  /**
   * An entry as this store writes it: its key denotes a sequence number
   * already issued by the bucket, and a decodable record sits under the
   * key of its own index.
   */
  predicate EntryValid(scheme: KeyScheme, sequence: nat, e: Entry<Record>) {
    && AllDigits(e.key)
    && 1 <= Value(e.key) <= sequence
    && (e.value.Marshalled? ==> e.key == KeyFromIndex(scheme, e.value.notification.index))
  }

  predicate BucketValid(scheme: KeyScheme, b: Bucket) {
    && Sorted(b.entries)
    && forall i :: 0 <= i < |b.entries| ==> EntryValid(scheme, b.sequence, b.entries[i])
  }

  predicate RootValid(scheme: KeyScheme, root: Root) {
    && Sorted(root)
    && forall i :: 0 <= i < |root| ==> BucketValid(scheme, root[i].value)
  }

  /** The store invariant: well-formed buckets and the generation ID persisted in the metadata bucket. */
  predicate Valid(s: Store) {
    && RootValid(s.scheme, s.root)
    && KeyGenerationID in s.metadata
    && s.metadata[KeyGenerationID] == s.generationID
  }

  predicate VolumeValid(v: Volume, scheme: KeyScheme) {
    v.notifications.Some? ==> RootValid(scheme, v.notifications.value)
  }

  /** The generation ID persisted on the volume, if there is one. */
  function StoredGenerationID(v: Volume): Option<string> {
    if v.metadata.Some? && KeyGenerationID in v.metadata.value then Some(v.metadata.value[KeyGenerationID])
    else None
  }

  /**
   * Opens a volume: creates the notifications and metadata buckets when
   * missing, reuses a persisted generation ID and persists `freshID` only
   * when none is stored. `freshID` stands for the UUID generated at that
   * point.
   */
  function Open(v: Volume, freshID: string, scheme: KeyScheme): (s: Store)
    ensures s.scheme == scheme
    ensures s.root == v.notifications.GetOr([])
    ensures StoredGenerationID(v).Some? ==> s.generationID == StoredGenerationID(v).value
    ensures StoredGenerationID(v).None? ==> s.generationID == freshID
    ensures s.metadata - {KeyGenerationID} == v.metadata.GetOr(map[]) - {KeyGenerationID}
    ensures VolumeValid(v, scheme) ==> Valid(s)
  {
    var meta := v.metadata.GetOr(map[]);
    var genID := if KeyGenerationID in meta then meta[KeyGenerationID] else freshID;
    Store(scheme, genID, meta[KeyGenerationID := genID], v.notifications.GetOr([]))
  }

  /** The volume a closed store leaves behind. */
  function Close(s: Store): (v: Volume)
    ensures StoredGenerationID(v) == Some(s.generationID) <== Valid(s)
    ensures v.notifications == Some(s.root)
  {
    Volume(Some(s.metadata), Some(s.root))
  }

  /** Reopening a closed volume restores the same store, whatever fresh ID is offered: the generation ID never changes. */
  lemma ReopenKeepsStore(s: Store, freshID: string)
    requires Valid(s)
    ensures Open(Close(s), freshID, s.scheme) == s
  {
    var r := Open(Close(s), freshID, s.scheme);
    assert r.generationID == s.generationID;
    assert r.metadata == s.metadata;
  }

  /** Opening an empty volume adopts the fresh generation ID and an empty root. */
  lemma OpenEmptyVolume(freshID: string, scheme: KeyScheme)
    ensures Valid(Open(Volume(None, None), freshID, scheme))
    ensures Open(Volume(None, None), freshID, scheme).generationID == freshID
    ensures Open(Volume(None, None), freshID, scheme).root == []
  {
  }

  /** The bucket of `topic`; a topic without a bucket reads as an empty one. */
  function TopicBucket(s: Store, topic: string): Bucket {
    Find(s.root, topic).GetOr(Bucket(0, []))
  }

  lemma BucketOfValid(s: Store, topic: string)
    requires Valid(s)
    ensures BucketValid(s.scheme, TopicBucket(s, topic))
  {
    var f := Find(s.root, topic);
    if f.Some? {
      var i :| 0 <= i < |s.root| && s.root[i] == Entry(topic, f.value);
    }
  }

  /**
   * `after` is `before` with exactly the entry `e` added: its key was not
   * used before, and nothing else changed.
   */
  predicate AddsOneEntry(before: seq<Entry<Record>>, after: seq<Entry<Record>>, e: Entry<Record>) {
    && !HasKey(before, e.key)
    && e in after
    && (forall x :: x in before ==> x in after)
    && (forall x :: x in after ==> x == e || x in before)
    && |after| == |before| + 1
  }

  /**
   * One append to a bucket: the sequence counter moves on by one and the
   * notification is stored under the key of the new counter value, which
   * no entry of the bucket uses yet.
   */
  function AppendToBucket(scheme: KeyScheme, b: Bucket, data: Payload, now: int): (b': Bucket)
    requires BucketValid(scheme, b)
    ensures BucketValid(scheme, b')
    ensures b'.sequence == b.sequence + 1
    ensures AddsOneEntry(b.entries, b'.entries,
                         Entry(KeyFromIndex(scheme, b'.sequence), Marshal(Notification(b'.sequence, now, data))))
    ensures forall e :: e in b.entries ==> Value(e.key) < b'.sequence
  {
    var idx := b.sequence + 1;
    var key := KeyFromIndex(scheme, idx);
    var e := Entry(key, Marshal(Notification(idx, now, data)));
    assert !HasKey(b.entries, key) by {
      forall i | 0 <= i < |b.entries| ensures b.entries[i].key != key {
        assert EntryValid(scheme, b.sequence, b.entries[i]);
      }
    }
    var b' := Bucket(idx, Put(b.entries, key, e.value));
    assert BucketValid(scheme, b') by {
      forall i | 0 <= i < |b'.entries| ensures EntryValid(scheme, idx, b'.entries[i]) {
        var x := b'.entries[i];
        if x != e {
          var j :| 0 <= j < |b.entries| && b.entries[j] == x;
          assert EntryValid(scheme, b.sequence, b.entries[j]);
        }
      }
    }
    assert forall x :: x in b.entries ==> Value(x.key) < idx by {
      forall x | x in b.entries ensures Value(x.key) < idx {
        var j :| 0 <= j < |b.entries| && b.entries[j] == x;
        assert EntryValid(scheme, b.sequence, b.entries[j]);
      }
    }
    b'
  }

  lemma PutKeepsRootValid(scheme: KeyScheme, root: Root, topic: string, b: Bucket)
    requires RootValid(scheme, root) && BucketValid(scheme, b)
    ensures RootValid(scheme, Put(root, topic, b))
  {
    var root' := Put(root, topic, b);
    forall i | 0 <= i < |root'| ensures BucketValid(scheme, root'[i].value) {
      if root'[i] != Entry(topic, b) {
        assert root'[i] in root';
        var j :| 0 <= j < |root| && root[j] == root'[i];
      }
    }
  }

  /**
   * Appends `data` to `topic` at time `now`: creates the topic's bucket if
   * missing, takes the bucket's next sequence number and stores the
   * notification under the key of that number.
   */
  function Append(s: Store, topic: string, data: Payload, now: int): (r: Store)
    requires Valid(s)
    ensures Valid(r)
    ensures r.scheme == s.scheme && r.generationID == s.generationID && r.metadata == s.metadata
    ensures HasKey(r.root, topic)
    ensures forall t :: t != topic ==> Find(r.root, t) == Find(s.root, t)
    ensures && BucketValid(s.scheme, TopicBucket(s, topic))
            && TopicBucket(r, topic) == AppendToBucket(s.scheme, TopicBucket(s, topic), data, now)
  {
    BucketOfValid(s, topic);
    var b' := AppendToBucket(s.scheme, TopicBucket(s, topic), data, now);
    var root' := Put(s.root, topic, b');
    PutKeepsRootValid(s.scheme, s.root, topic, b');
    forall t ensures Find(root', t) == if t == topic then Some(b') else Find(s.root, t) {
      FindPut(s.root, topic, b', t);
    }
    s.(root := root')
  }

  /**
   * The entries a `get` reads: with the store's own generation ID, those
   * whose key is not below the key of `fromIndex` (byte order); with any
   * other generation ID, all of them. Both in bucket (key) order.
   */
  function Visible(s: Store, topic: string, genID: string, fromIndex: nat): seq<Entry<Record>> {
    var es := TopicBucket(s, topic).entries;
    if genID == s.generationID then AtOrAfter(es, KeyFromIndex(s.scheme, fromIndex)) else es
  }

  function Values(es: seq<Entry<Record>>): (rs: seq<Record>)
    ensures |rs| == |es| && forall i :: 0 <= i < |es| ==> rs[i] == es[i].value
  {
    seq(|es|, i requires 0 <= i < |es| => es[i].value)
  }

  /**
   * Reads `topic`. A missing bucket is an empty result, not an error. A
   * caller holding the store's generation ID continues from a cursor
   * `Seek` to the key of `fromIndex`; any other caller reads from the
   * first entry. The response carries the store's generation ID; an
   * undecodable record fails the read.
   */
  function Get(s: Store, topic: string, genID: string, fromIndex: nat): (r: Result<NotificationsResponse, StoreError>)
    requires Valid(s)
    ensures !HasKey(s.root, topic) ==> r == Success(NotificationsResponse(s.generationID, []))
    ensures r.Success? ==> r.value.generationID == s.generationID
    ensures r.Success? <==> Readable(Visible(s, topic, genID, fromIndex))
    ensures r.Success? ==> |r.value.notifications| == |Visible(s, topic, genID, fromIndex)|
    ensures r.Success? ==> forall i :: 0 <= i < |r.value.notifications| ==>
      Visible(s, topic, genID, fromIndex)[i].value == Marshalled(r.value.notifications[i])
  {
    match Find(s.root, topic)
    case None => Success(NotificationsResponse(s.generationID, []))
    case Some(b) =>
      BucketOfValid(s, topic);
      var start := if genID == s.generationID then Seek(b.entries, KeyFromIndex(s.scheme, fromIndex)) else 0;
      ReadsVisible(s, topic, genID, fromIndex, start);
      match UnmarshalAll(Values(b.entries[start..]))
      case Failure(e) => Failure(e)
      case Success(ns) => Success(NotificationsResponse(s.generationID, ns))
  }

  /** A cursor positioned as `get` positions it reads exactly the visible entries. */
  lemma ReadsVisible(s: Store, topic: string, genID: string, fromIndex: nat, start: nat)
    requires Valid(s)
    requires BucketValid(s.scheme, TopicBucket(s, topic))
    requires start == if genID == s.generationID then
      Seek(TopicBucket(s, topic).entries, KeyFromIndex(s.scheme, fromIndex)) else 0
    ensures start <= |TopicBucket(s, topic).entries|
    ensures TopicBucket(s, topic).entries[start..] == Visible(s, topic, genID, fromIndex)
  {
    var es := TopicBucket(s, topic).entries;
    if genID == s.generationID {
      SeekIsAtOrAfter(es, KeyFromIndex(s.scheme, fromIndex));
    } else {
      assert es[0..] == es;
    }
  }

  // ----- garbage collection -----

  /** A record that decodes and whose timestamp lies strictly before the cutoff. */
  predicate Expired(e: Entry<Record>, olderThan: int) {
    e.value.Marshalled? && e.value.notification.timestamp < olderThan
  }

  /** Reference definition of what a sweep keeps in one bucket. */
  function Unexpired(es: seq<Entry<Record>>, olderThan: int): seq<Entry<Record>> {
    Filter(es, (e: Entry<Record>) => !Expired(e, olderThan))
  }

  /** Total number of entries across all topics. */
  function Size(root: Root): nat
    decreases |root|
  {
    if |root| == 0 then 0 else |root[0].value.entries| + Size(root[1..])
  }

  /**
   * The inner loop of the sweep over one bucket: every entry is decoded,
   * those older than the cutoff are deleted and counted, and an entry that
   * does not decode aborts the sweep.
   */
  function SweepBucket(es: seq<Entry<Record>>, olderThan: int): (r: Result<(seq<Entry<Record>>, nat), StoreError>)
    ensures r.Success? <==> Readable(es)
    ensures r.Success? ==> r.value.0 == Unexpired(es, olderThan)
    ensures r.Success? ==> r.value.1 == |es| - |r.value.0|
    decreases |es|
  {
    if |es| == 0 then Success(([], 0))
    else match Unmarshal(es[0].value)
      case Failure(e) => Failure(e)
      case Success(n) =>
        assert forall i :: 0 < i < |es| ==> es[i] == es[1..][i - 1];
        match SweepBucket(es[1..], olderThan)
        case Failure(e) => Failure(e)
        case Success(rest) =>
          if n.timestamp < olderThan then Success((rest.0, rest.1 + 1))
          else Success(([es[0]] + rest.0, rest.1))
  }

  /** The outer loop of the sweep: every topic bucket, in root order, none skipped. */
  function SweepRoot(root: Root, olderThan: int): (r: Result<(Root, nat), StoreError>)
    ensures r.Success? <==> forall i, j :: 0 <= i < |root| && 0 <= j < |root[i].value.entries| ==>
      root[i].value.entries[j].value.Marshalled?
    ensures r.Success? ==> |r.value.0| == |root|
    ensures r.Success? ==> forall i :: 0 <= i < |root| ==>
      r.value.0[i] == Entry(root[i].key, Bucket(root[i].value.sequence, Unexpired(root[i].value.entries, olderThan)))
    ensures r.Success? ==> r.value.1 == Size(root) - Size(r.value.0)
    decreases |root|
  {
    if |root| == 0 then Success(([], 0))
    else
      assert forall i :: 0 < i < |root| ==> root[i] == root[1..][i - 1];
      match SweepBucket(root[0].value.entries, olderThan)
      case Failure(e) => Failure(e)
      case Success(swept) =>
        match SweepRoot(root[1..], olderThan)
        case Failure(e) => Failure(e)
        case Success(rest) =>
          var b := Entry(root[0].key, Bucket(root[0].value.sequence, swept.0));
          var r := [b] + rest.0;
          assert r[1..] == rest.0;
          Success((r, swept.1 + rest.1))
  }

  /** Removing expired entries bucket by bucket keeps a valid root valid. */
  lemma SweptRootValid(s: Store, olderThan: int, root': Root)
    requires Valid(s)
    requires |root'| == |s.root|
    requires forall i :: 0 <= i < |s.root| ==>
      root'[i] == Entry(s.root[i].key, Bucket(s.root[i].value.sequence, Unexpired(s.root[i].value.entries, olderThan)))
    ensures RootValid(s.scheme, root')
  {
    forall i, j | 0 <= i < j < |root'| ensures Less(root'[i].key, root'[j].key) {
      assert root'[i].key == s.root[i].key && root'[j].key == s.root[j].key;
    }
    forall i | 0 <= i < |root'| ensures BucketValid(s.scheme, root'[i].value) {
      var before := s.root[i].value;
      assert BucketValid(s.scheme, before);
      FilterSorted(before.entries, (e: Entry<Record>) => !Expired(e, olderThan));
      forall k | 0 <= k < |root'[i].value.entries|
        ensures EntryValid(s.scheme, before.sequence, root'[i].value.entries[k])
      {
        var x := root'[i].value.entries[k];
        assert x in before.entries;
        var j :| 0 <= j < |before.entries| && before.entries[j] == x;
        assert EntryValid(s.scheme, before.sequence, before.entries[j]);
      }
    }
  }

  /** What a garbage collection leaves: the store after the transaction and the deletion count or the error. */
  datatype GcResult = GcResult(store: Store, deleted: Result<nat, StoreError>)

  /**
   * One garbage-collection transaction: deletes every entry of every topic
   * whose timestamp is strictly before `olderThan`, keeps the rest, and
   * counts one per deletion. An undecodable record anywhere fails the
   * transaction and leaves the store as it was.
   */
  function Gc(s: Store, olderThan: int): (r: GcResult)
    requires Valid(s)
    ensures Valid(r.store)
    ensures r.store.scheme == s.scheme && r.store.generationID == s.generationID && r.store.metadata == s.metadata
    ensures r.deleted.Failure? <==>
      (exists i, j :: 0 <= i < |s.root| && 0 <= j < |s.root[i].value.entries| && s.root[i].value.entries[j].value.Malformed?)
    ensures r.deleted.Failure? ==> r.store == s
    ensures r.deleted.Success? ==> |r.store.root| == |s.root| && forall i :: 0 <= i < |s.root| ==>
      && r.store.root[i].key == s.root[i].key
      && r.store.root[i].value.sequence == s.root[i].value.sequence
      && (forall e :: e in r.store.root[i].value.entries ==> e in s.root[i].value.entries && !Expired(e, olderThan))
      && (forall e :: e in s.root[i].value.entries && !Expired(e, olderThan) ==> e in r.store.root[i].value.entries)
    ensures r.deleted.Success? ==> r.deleted.value == Size(s.root) - Size(r.store.root)
  {
    match SweepRoot(s.root, olderThan)
    case Failure(e) => GcResult(s, Failure(e))
    case Success(swept) =>
      var root' := swept.0;
      SweptRootValid(s, olderThan, root');
      GcResult(s.(root := root'), Success(swept.1))
  }
}
