/**
 * A bucket of the ordered key/value engine: entries kept in ascending
 * byte order of their keys, at most one entry per key. The engine's
 * cursor operations (First, Seek, Next) and Put are stated over this
 * representation.
 */
module OrderedMap {
  import opened Wrappers
  import opened Keys

  datatype Entry<V> = Entry(key: Key, value: V)

  /** Keys strictly ascend, so no key occurs twice. */
  predicate Sorted<V>(es: seq<Entry<V>>) {
    forall i, j :: 0 <= i < j < |es| ==> Less(es[i].key, es[j].key)
  }

  predicate HasKey<V>(es: seq<Entry<V>>, k: Key) {
    exists i :: 0 <= i < |es| && es[i].key == k
  }

  /** Every key of `es` comes after `k`. */
  predicate AllAfter<V>(k: Key, es: seq<Entry<V>>) {
    forall i :: 0 <= i < |es| ==> Less(k, es[i].key)
  }

  lemma SortedCons<V>(e: Entry<V>, es: seq<Entry<V>>)
    requires Sorted(es) && AllAfter(e.key, es)
    ensures Sorted([e] + es)
  {
    var r := [e] + es;
    forall i, j | 0 <= i < j < |r|
      ensures Less(r[i].key, r[j].key)
    {
      if i > 0 {
        assert r[i] == es[i - 1] && r[j] == es[j - 1];
      } else {
        assert r[j] == es[j - 1];
      }
    }
  }

  lemma SortedTail<V>(es: seq<Entry<V>>)
    requires Sorted(es) && |es| > 0
    ensures Sorted(es[1..])
  {
    forall i, j | 0 <= i < j < |es| - 1
      ensures Less(es[1..][i].key, es[1..][j].key)
    {
      assert es[1..][i] == es[i + 1] && es[1..][j] == es[j + 1];
    }
  }

  /** The value stored under `k` (bolt's Get / Bucket lookup). */
  function Find<V>(es: seq<Entry<V>>, k: Key): (r: Option<V>)
    ensures r.Some? <==> HasKey(es, k)
    ensures r.Some? ==> Entry(k, r.value) in es
    decreases |es|
  {
    if |es| == 0 then None
    else if es[0].key == k then Some(es[0].value)
    else
      var r := Find(es[1..], k);
      assert HasKey(es, k) ==> HasKey(es[1..], k) by {
        if HasKey(es, k) {
          var i :| 0 <= i < |es| && es[i].key == k;
          assert es[1..][i - 1] == es[i];
        }
      }
      r
  }

  /** In a sorted bucket the stored entry is the one found. */
  lemma FindMember<V>(es: seq<Entry<V>>, e: Entry<V>)
    requires Sorted(es) && e in es
    ensures Find(es, e.key) == Some(e.value)
  {
    var r := Find(es, e.key);
    var i :| 0 <= i < |es| && es[i] == e;
    var j :| 0 <= j < |es| && es[j] == Entry(e.key, r.value);
    if i < j {
      LessIrreflexive(e.key);
    } else if j < i {
      LessIrreflexive(e.key);
    }
  }

  /** In a sorted bucket every key after the first comes after the first. */
  lemma HeadBelowTail<V>(es: seq<Entry<V>>)
    requires Sorted(es) && |es| > 0
    ensures Sorted(es[1..]) && AllAfter(es[0].key, es[1..])
  {
    SortedTail(es);
    forall i | 0 <= i < |es[1..]| ensures Less(es[0].key, es[1..][i].key) {
      assert es[1..][i] == es[i + 1];
    }
  }

  /** A key below the first key of a sorted bucket is below all of them, so it is not stored. */
  lemma BelowHead<V>(es: seq<Entry<V>>, k: Key)
    requires Sorted(es) && |es| > 0 && Less(k, es[0].key)
    ensures AllAfter(k, es) && !HasKey(es, k)
  {
    forall i | 0 <= i < |es| ensures Less(k, es[i].key) {
      if i > 0 {
        LessTransitive(k, es[0].key, es[i].key);
      }
    }
    forall i | 0 <= i < |es| ensures es[i].key != k {
      LessIrreflexive(k);
    }
  }

  /** Whether a key other than the first is stored is decided by the tail. */
  lemma HasKeyTail<V>(es: seq<Entry<V>>, k: Key)
    requires |es| > 0 && es[0].key != k
    ensures HasKey(es, k) <==> HasKey(es[1..], k)
    ensures forall e :: e in es && e.key != k ==> e == es[0] || e in es[1..]
  {
    if HasKey(es, k) {
      var i :| 0 <= i < |es| && es[i].key == k;
      assert es[1..][i - 1] == es[i];
    }
    if HasKey(es[1..], k) {
      var i :| 0 <= i < |es[1..]| && es[1..][i].key == k;
      assert es[i + 1] == es[1..][i];
    }
  }

  /**
   * Stores `v` under `k`: replaces the entry with that key if there is one,
   * otherwise inserts a new entry at its place in key order.
   */
  function Put<V>(es: seq<Entry<V>>, k: Key, v: V): (r: seq<Entry<V>>)
    requires Sorted(es)
    ensures Sorted(r)
    ensures Entry(k, v) in r
    ensures forall e :: e in r ==> e == Entry(k, v) || e in es
    ensures forall e :: e in es && e.key != k ==> e in r
    ensures |r| == if HasKey(es, k) then |es| else |es| + 1
    decreases |es|
  {
    if |es| == 0 then
      [Entry(k, v)]
    else if es[0].key == k then
      HeadBelowTail(es);
      SortedCons(Entry(k, v), es[1..]);
      assert HasKey(es, k);
      assert forall e :: e in es ==> e == es[0] || e in es[1..];
      [Entry(k, v)] + es[1..]
    else if Less(k, es[0].key) then
      BelowHead(es, k);
      SortedCons(Entry(k, v), es);
      [Entry(k, v)] + es
    else
      HeadBelowTail(es);
      var tail := Put(es[1..], k, v);
      LessTotal(k, es[0].key);
      assert AllAfter(es[0].key, tail) by {
        forall i | 0 <= i < |tail| ensures Less(es[0].key, tail[i].key) {
          if tail[i] != Entry(k, v) {
            var j :| 0 <= j < |es[1..]| && es[1..][j] == tail[i];
          }
        }
      }
      SortedCons(es[0], tail);
      HasKeyTail(es, k);
      [es[0]] + tail
  }

  /**
   * The position a cursor `Seek(k)` lands on: the first entry whose key is
   * not below `k`, or the end when there is none.
   */
  function Seek<V>(es: seq<Entry<V>>, k: Key): (i: nat)
    requires Sorted(es)
    ensures i <= |es|
    ensures forall j :: 0 <= j < i ==> Less(es[j].key, k)
    ensures forall j :: i <= j < |es| ==> !Less(es[j].key, k)
    decreases |es|
  {
    if |es| == 0 then 0
    else if !Less(es[0].key, k) then
      assert forall j :: 0 < j < |es| ==> !Less(es[j].key, k) by {
        forall j | 0 < j < |es| ensures !Less(es[j].key, k) {
          if Less(es[j].key, k) {
            LessTransitive(es[0].key, es[j].key, k);
          }
        }
      }
      0
    else
      var i := Seek(es[1..], k);
      assert forall j :: 1 <= j <= i ==> es[j] == es[1..][j - 1];
      assert forall j :: i + 1 <= j < |es| ==> es[j] == es[1..][j - 1];
      1 + i
  }

  /** The entries satisfying `keep`, in bucket order. */
  function Filter<V>(es: seq<Entry<V>>, keep: Entry<V> -> bool): (r: seq<Entry<V>>)
    ensures forall e :: e in r ==> e in es && keep(e)
    ensures forall e :: e in es && keep(e) ==> e in r
    ensures |r| <= |es|
    decreases |es|
  {
    if |es| == 0 then []
    else
      var rest := Filter(es[1..], keep);
      assert forall e :: e in es ==> e == es[0] || e in es[1..];
      (if keep(es[0]) then [es[0]] else []) + rest
  }

  /** A filtered bucket is still sorted. */
  lemma {:induction false} FilterSorted<V>(es: seq<Entry<V>>, keep: Entry<V> -> bool)
    requires Sorted(es)
    ensures Sorted(Filter(es, keep))
    decreases |es|
  {
    if |es| > 0 {
      SortedTail(es);
      FilterSorted(es[1..], keep);
      var rest := Filter(es[1..], keep);
      if keep(es[0]) {
        assert AllAfter(es[0].key, rest) by {
          forall i | 0 <= i < |rest| ensures Less(es[0].key, rest[i].key) {
            assert rest[i] in es[1..];
            var j :| 0 <= j < |es[1..]| && es[1..][j] == rest[i];
            assert es[j + 1] == rest[i];
          }
        }
        SortedCons(es[0], rest);
      }
    }
  }

  /** Reference definition of a seek: the entries whose key is not below `k`, in bucket order. */
  function AtOrAfter<V>(es: seq<Entry<V>>, k: Key): seq<Entry<V>>
  {
    Filter(es, (e: Entry<V>) => !Less(e.key, k))
  }

  /** Iterating from `Seek(k)` to the end yields exactly the entries at or after `k`. */
  lemma {:induction false} SeekIsAtOrAfter<V>(es: seq<Entry<V>>, k: Key)
    requires Sorted(es)
    ensures es[Seek(es, k)..] == AtOrAfter(es, k)
    decreases |es|
  {
    if |es| > 0 {
      SortedTail(es);
      SeekIsAtOrAfter(es[1..], k);
      if !Less(es[0].key, k) {
        assert Seek(es, k) == 0;
        assert forall j :: 0 <= j < |es[1..]| ==> es[1..][j] == es[j + 1];
        AllAtOrAfter(es[1..], k);
      }
    }
  }

  /** A seek to the greatest key of a bucket reads its last entry alone. */
  lemma AtOrAfterLast<V>(es: seq<Entry<V>>)
    requires Sorted(es) && |es| > 0
    ensures AtOrAfter(es, es[|es| - 1].key) == [es[|es| - 1]]
  {
    var k := es[|es| - 1].key;
    LessIrreflexive(k);
    SeekIsAtOrAfter(es, k);
    var i := Seek(es, k);
    assert i <= |es| - 1 by {
      assert !Less(es[|es| - 1].key, k);
    }
    assert !Less(es[i].key, k);
  }

  /** The seek reference definition, one entry at a time. */
  lemma AtOrAfterCons<V>(es: seq<Entry<V>>, k: Key)
    requires |es| > 0
    ensures AtOrAfter(es, k) == (if Less(es[0].key, k) then [] else [es[0]]) + AtOrAfter(es[1..], k)
  {
  }

  /** When no key of `es` is below `k`, the filter keeps everything. */
  lemma {:induction false} AllAtOrAfter<V>(es: seq<Entry<V>>, k: Key)
    requires forall j :: 0 <= j < |es| ==> !Less(es[j].key, k)
    ensures AtOrAfter(es, k) == es
    decreases |es|
  {
    if |es| > 0 {
      AllAtOrAfter(es[1..], k);
    }
  }

  /** After a Put, lookups of `k` see the new value and lookups of every other key are unchanged. */
  lemma FindPut<V>(es: seq<Entry<V>>, k: Key, v: V, k2: Key)
    requires Sorted(es)
    ensures Find(Put(es, k, v), k2) == if k2 == k then Some(v) else Find(es, k2)
  {
    var r := Put(es, k, v);
    if k2 == k {
      FindMember(r, Entry(k, v));
    } else if HasKey(es, k2) {
      var b := Find(es, k2);
      assert Entry(k2, b.value) in r;
      FindMember(r, Entry(k2, b.value));
    } else {
      forall i | 0 <= i < |r|
        ensures r[i].key != k2
      {
        assert r[i] in r;
      }
    }
  }


  /**
   * Two sorted buckets with the same keys at the same positions: a lookup
   * finds a key in both or in neither, and at the same position.
   */
  lemma FindAligned<V, W>(a: seq<Entry<V>>, b: seq<Entry<W>>, k: Key) returns (i: int)
    requires Sorted(a) && Sorted(b) && |a| == |b|
    requires forall j :: 0 <= j < |a| ==> a[j].key == b[j].key
    ensures Find(a, k).None? <==> Find(b, k).None?
    ensures Find(a, k).Some? ==> 0 <= i < |a| && a[i].key == k && Find(a, k) == Some(a[i].value) && Find(b, k) == Some(b[i].value)
  {
    i := -1;
    if HasKey(b, k) {
      var j :| 0 <= j < |b| && b[j].key == k;
      assert a[j].key == k;
    }
    if Find(a, k).Some? {
      i :| 0 <= i < |a| && a[i] == Entry(k, Find(a, k).value);
      FindMember(b, b[i]);
    }
  }

  /** A key above every stored key is inserted at the end. */
  lemma {:induction false} PutAfterAll<V>(es: seq<Entry<V>>, k: Key, v: V)
    requires Sorted(es)
    requires forall i :: 0 <= i < |es| ==> Less(es[i].key, k)
    ensures Put(es, k, v) == es + [Entry(k, v)]
    decreases |es|
  {
    if |es| > 0 {
      LessIrreflexive(k);
      LessAsymmetric(es[0].key, k);
      SortedTail(es);
      PutAfterAll(es[1..], k, v);
      assert es == [es[0]] + es[1..];
    }
  }
}
