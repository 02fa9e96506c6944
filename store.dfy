/**
 * One bucket of the embedded ordered key-value store, as the pool uses it:
 * records kept in byte order of their keys, and a per-bucket uint64
 * sequence counter.  The records are held as the key-sorted sequence a
 * cursor walks (First is position 0, Next is the following position);
 * ToMap gives the same records as a map.
 */
module Store {
  import opened Wrappers
  import opened ByteOrder
  import opened Decimal

  datatype Entry = Entry(key: string, value: string)

  /** A bucket as it is found in the store file. */
  datatype Bucket = Bucket(entries: seq<Entry>, sequence: Uint64)

  /** Keys strictly increase along the sequence (so no key occurs twice). */
  predicate Sorted(es: seq<Entry>)
  {
    forall i, j :: 0 <= i < j < |es| ==> Lt(es[i].key, es[j].key)
  }

  /** The records as a map from key to value. */
  ghost function ToMap(es: seq<Entry>): map<string, string>
  {
    if es == [] then map[] else ToMap(es[1..])[es[0].key := es[0].value]
  }

  /** Every key of the map is the key of some record. */
  lemma {:induction false} KeyIndex(es: seq<Entry>, k: string) returns (i: nat)
    requires k in ToMap(es)
    ensures i < |es| && es[i].key == k
  {
    if es[0].key == k {
      i := 0;
    } else {
      var j := KeyIndex(es[1..], k);
      i := j + 1;
    }
  }

  /** Every record's key is a key of the map. */
  lemma {:induction false} IndexInMap(es: seq<Entry>, i: nat)
    requires i < |es|
    ensures es[i].key in ToMap(es)
  {
    if i > 0 {
      IndexInMap(es[1..], i - 1);
    }
  }

  /** Below the first key of a sorted bucket lies nothing: the rest is sorted and above it. */
  lemma SortedTail(es: seq<Entry>)
    requires Sorted(es) && es != []
    ensures Sorted(es[1..])
    ensures forall k :: k in ToMap(es[1..]) ==> Lt(es[0].key, k)
  {
    forall k | k in ToMap(es[1..])
      ensures Lt(es[0].key, k)
    {
      var j := KeyIndex(es[1..], k);
      assert es[j + 1] == es[1..][j];
    }
  }

  /** A key below every key of a sorted bucket can go in front of it. */
  lemma SortedCons(e: Entry, rest: seq<Entry>)
    requires Sorted(rest)
    requires forall k :: k in ToMap(rest) ==> Lt(e.key, k)
    ensures Sorted([e] + rest)
  {
    var es := [e] + rest;
    forall i, j | 0 <= i < j < |es|
      ensures Lt(es[i].key, es[j].key)
    {
      if i == 0 {
        IndexInMap(rest, j - 1);
        assert es[j] == rest[j - 1];
      } else {
        assert es[i] == rest[i - 1] && es[j] == rest[j - 1];
      }
    }
  }

  /** In a sorted bucket the first key lies below every other key. */
  lemma FirstKeyLeast(es: seq<Entry>)
    requires Sorted(es) && es != []
    ensures forall k :: k in ToMap(es) ==> k == es[0].key || Lt(es[0].key, k)
    ensures es[0].key in ToMap(es) && ToMap(es)[es[0].key] == es[0].value
  {
    SortedTail(es);
  }

  /** A sorted bucket holds as many records as its map has keys. */
  lemma {:induction false} MapSize(es: seq<Entry>)
    requires Sorted(es)
    ensures |ToMap(es)| == |es|
  {
    if es != [] {
      SortedTail(es);
      LtIrreflexive(es[0].key);
      assert es[0].key !in ToMap(es[1..]);
      MapSize(es[1..]);
    }
  }

  /** Bucket.NextSequence: the counter is a uint64 incremented in place, wrapping past 2^64 - 1. */
  function NextSequence(s: Uint64): (r: Uint64)
    ensures s < Two64 - 1 ==> r == s + 1
    ensures s == Two64 - 1 ==> r == 0
  {
    (s + 1) % Two64
  }

  /** The cursor's First: the record with the least key, or None on an empty bucket. */
  function First(es: seq<Entry>): (r: Option<Entry>)
    requires Sorted(es)
    ensures r.None? <==> ToMap(es) == map[]
    ensures r.Some? ==> r.value.key in ToMap(es) && ToMap(es)[r.value.key] == r.value.value
    ensures r.Some? ==> forall k :: k in ToMap(es) ==> k == r.value.key || Lt(r.value.key, k)
  {
    if es == [] then None
    else
      FirstKeyLeast(es);
      Some(es[0])
  }

  /** Bucket.Put: store v under k, replacing any earlier value of k, keeping key order. */
  function Put(es: seq<Entry>, k: string, v: string): seq<Entry>
  {
    if es == [] then [Entry(k, v)]
    else if es[0].key == k then [Entry(k, v)] + es[1..]
    else if Lt(k, es[0].key) then [Entry(k, v)] + es
    else [es[0]] + Put(es[1..], k, v)
  }

  /** Put keeps the bucket sorted, and afterwards k holds v and every other key what it held. */
  lemma {:induction false} PutSpec(es: seq<Entry>, k: string, v: string)
    requires Sorted(es)
    ensures Sorted(Put(es, k, v))
    ensures ToMap(Put(es, k, v)) == ToMap(es)[k := v]
  {
    if es == [] {
    } else if es[0].key == k {
      PutReplacesFirst(es, k, v);
    } else if Lt(k, es[0].key) {
      PutBeforeFirst(es, k, v);
    } else {
      PutSpec(es[1..], k, v);
      PutAfterFirst(es, k, v);
    }
  }

  lemma PutReplacesFirst(es: seq<Entry>, k: string, v: string)
    requires Sorted(es) && es != [] && es[0].key == k
    ensures Sorted(Put(es, k, v))
    ensures ToMap(Put(es, k, v)) == ToMap(es)[k := v]
  {
    SortedTail(es);
    SortedCons(Entry(k, v), es[1..]);
    assert ([Entry(k, v)] + es[1..])[1..] == es[1..];
  }

  lemma PutBeforeFirst(es: seq<Entry>, k: string, v: string)
    requires Sorted(es) && es != [] && Lt(k, es[0].key)
    ensures Sorted(Put(es, k, v))
    ensures ToMap(Put(es, k, v)) == ToMap(es)[k := v]
  {
    FirstKeyLeast(es);
    forall key | key in ToMap(es)
      ensures Lt(k, key)
    {
      if key != es[0].key {
        LtTransitive(k, es[0].key, key);
      }
    }
    SortedCons(Entry(k, v), es);
    assert ([Entry(k, v)] + es)[1..] == es;
  }

  lemma PutAfterFirst(es: seq<Entry>, k: string, v: string)
    requires Sorted(es) && es != [] && es[0].key != k && !Lt(k, es[0].key)
    requires Sorted(Put(es[1..], k, v)) && ToMap(Put(es[1..], k, v)) == ToMap(es[1..])[k := v]
    ensures Sorted(Put(es, k, v))
    ensures ToMap(Put(es, k, v)) == ToMap(es)[k := v]
  {
    var e, rest := es[0], Put(es[1..], k, v);
    SortedTail(es);
    LtTotal(k, e.key);
    SortedCons(e, rest);
    assert ([e] + rest)[1..] == rest;
    var m := ToMap(es[1..]);
    calc {
      ToMap([e] + rest);
      ToMap(rest)[e.key := e.value];
      m[k := v][e.key := e.value];
      m[e.key := e.value][k := v];
    }
  }

  /** Bucket.Delete: remove the record under k, if there is one, keeping key order. */
  function Delete(es: seq<Entry>, k: string): seq<Entry>
  {
    if es == [] then []
    else if es[0].key == k then es[1..]
    else [es[0]] + Delete(es[1..], k)
  }

  /** Delete keeps the bucket sorted, and afterwards k is gone and every other key holds what it held. */
  lemma {:induction false} DeleteSpec(es: seq<Entry>, k: string)
    requires Sorted(es)
    ensures Sorted(Delete(es, k))
    ensures ToMap(Delete(es, k)) == ToMap(es) - {k}
  {
    if es == [] {
    } else if es[0].key == k {
      DeleteFirst(es);
    } else {
      DeleteSpec(es[1..], k);
      DeleteAfterFirst(es, k);
    }
  }

  /** Deleting the least key leaves the rest of the bucket. */
  lemma DeleteFirst(es: seq<Entry>)
    requires Sorted(es) && es != []
    ensures Delete(es, es[0].key) == es[1..]
    ensures Sorted(es[1..]) && ToMap(es[1..]) == ToMap(es) - {es[0].key}
  {
    var e := es[0];
    SortedTail(es);
    LtIrreflexive(e.key);
    var m := ToMap(es[1..]);
    assert e.key !in m;
    assert ToMap(es) == m[e.key := e.value];
    assert m[e.key := e.value] - {e.key} == m;
  }

  lemma DeleteAfterFirst(es: seq<Entry>, k: string)
    requires Sorted(es) && es != [] && es[0].key != k
    requires Sorted(Delete(es[1..], k)) && ToMap(Delete(es[1..], k)) == ToMap(es[1..]) - {k}
    ensures Sorted(Delete(es, k))
    ensures ToMap(Delete(es, k)) == ToMap(es) - {k}
  {
    var e, rest := es[0], Delete(es[1..], k);
    assert Delete(es, k) == [e] + rest;
    assert Sorted([e] + rest) by {
      SortedTail(es);
      SortedCons(e, rest);
    }
    assert ([e] + rest)[1..] == rest;
  }
}
