/**
 * The durable pool: a queue of items kept in one bucket of the ordered
 * store.  Push stores an item under the decimal text of the bucket's next
 * sequence number; Pop removes the record under the least key if its value
 * reads back as an integer; Length counts the records.  Each of Push and
 * Pop is one transaction: it either commits all its changes or leaves the
 * bucket as it was.
 */
module BoltDB {
  import opened Wrappers
  import opened ByteOrder
  import opened Decimal
  import opened Keys
  import Store

  /** A pool item: a piece of text or a 64-bit integer. */
  datatype Item = Text(text: string) | Int(value: Int64)

  /** The deflate closure: an item is stored as its string form, and this never fails. */
  function Deflate(i: Item): string
  {
    match i
    case Text(t) => t
    case Int(n) => FormatDec(n)
  }

  /** The inflate closure: a stored value is read as a base-10 int64 and becomes an integer item. */
  function Inflate(v: string): Option<Item>
  {
    match ParseDec(v)
    case None => None
    case Some(n) => Some(Int(n))
  }

  /** An integer item comes back from the store as the same integer item. */
  lemma InflateDeflateInt(n: Int64)
    ensures Inflate(Deflate(Int(n))) == Some(Int(n))
  {
    ParseFormatDec(n);
  }

  /** Numeric text comes back as an integer item: the store keeps the text, not the kind of item. */
  lemma InflateDeflateNumericText(n: Int64)
    ensures Inflate(Deflate(Text(FormatDec(n)))) == Some(Int(n))
  {
    ParseFormatDec(n);
  }

  /** Other text does not come back at all: a pushed "a" cannot be inflated. */
  lemma InflateDeflateOtherText()
    ensures Inflate(Deflate(Text("a"))) == None
  {
  }

  datatype OpenError = MissingBucket | MissingDsn

  function Message(e: OpenError): string
  {
    match e
    case MissingBucket => "Missing bucket"
    case MissingDsn => "Missing dsn"
  }

  /**
   * The configuration checks of Open: the bucket name (the URI's host) is
   * checked first, then the dsn query parameter.
   */
  function CheckConfig(host: string, dsn: string): (r: Option<OpenError>)
    ensures r == Some(MissingBucket) <==> host == ""
    ensures r == Some(MissingDsn) <==> host != "" && dsn == ""
    ensures r == None <==> host != "" && dsn != ""
    ensures r.Some? ==> Message(r.value) == (if host == "" then "Missing bucket" else "Missing dsn")
  {
    if host == "" then Some(MissingBucket)
    else if dsn == "" then Some(MissingDsn)
    else None
  }

  /** k is the key of some sequence number 1..s the bucket has handed out. */
  ghost predicate Issued(k: string, s: Uint64)
  {
    exists id: Uint64 :: 1 <= id <= s && KeyOf(id) == k
  }

  /** The key of the next sequence number is not among keys already handed out. */
  lemma FreshKey(m: map<string, string>, s: Uint64)
    requires forall k :: k in m ==> Issued(k, s)
    requires s < Two64 - 1
    ensures KeyOf(s + 1) !in m
  {
    forall id: Uint64 | 1 <= id <= s
      ensures KeyOf(id) != KeyOf(s + 1)
    {
      KeyOfInjective(id, s + 1);
    }
  }

  /** Once s + 1 is handed out, every key handed out so far, and its key, count as issued up to s + 1. */
  lemma IssuedAfterNext(m: map<string, string>, s: Uint64, m': map<string, string>)
    requires forall k :: k in m ==> Issued(k, s)
    requires s < Two64 - 1 && m'.Keys == m.Keys + {KeyOf(s + 1)}
    ensures forall k :: k in m' ==> Issued(k, s + 1)
  {
    forall k | k in m'
      ensures Issued(k, s + 1)
    {
      if k == KeyOf(s + 1) {
        assert 1 <= s + 1 <= s + 1 && KeyOf(s + 1) == k;
      } else {
        var id: Uint64 :| 1 <= id <= s && KeyOf(id) == k;
        assert 1 <= id <= s + 1 && KeyOf(id) == k;
      }
    }
  }

  /**
   * Storing a value under the next sequence number's key, while every key was
   * handed out before and the counter has not wrapped: a new record is added
   * and every key is still one handed out.
   */
  lemma PushFresh(m: map<string, string>, s: Uint64, v: string, m': map<string, string>)
    requires forall k :: k in m ==> Issued(k, s)
    requires s < Two64 - 1 && m' == m[KeyOf(s + 1) := v]
    ensures KeyOf(s + 1) !in m && |m'| == |m| + 1
    ensures forall k :: k in m' ==> Issued(k, s + 1)
  {
    FreshKey(m, s);
    IssuedAfterNext(m, s, m');
  }

  /**
   * While the live keys share one digit count, the record Pop reads is the
   * oldest: the least key belongs to the least sequence number of that width.
   */
  lemma PopTakesOldestOfSameWidth(es: seq<Store.Entry>, a: Uint64, b: Uint64)
    requires Store.Sorted(es) && es != [] && es[0].key == KeyOf(a)
    requires KeyOf(b) in Store.ToMap(es)
    requires a < Two63 && b < Two63 && |KeyOf(a)| == |KeyOf(b)|
    ensures a <= b
  {
    Store.FirstKeyLeast(es);
    KeyOfInjective(a, b);
    KeyOrderSameWidth(a, b);
  }

  /** With records 2 and 10 both live, Pop reads record 10 first. */
  lemma PopOutOfOrderPastNine()
    ensures var es := Store.Put(Store.Put([], KeyOf(2), "2"), KeyOf(10), "10");
            Store.Sorted(es) && es != [] && es[0] == Store.Entry(KeyOf(10), "10")
  {
    KeyOrderBreaksPastNine();
    Store.PutSpec([], KeyOf(2), "2");
    Store.PutSpec(Store.Put([], KeyOf(2), "2"), KeyOf(10), "10");
  }

  /** With fixed-width keys the record Pop reads is always the oldest live one. */
  lemma PopTakesOldestPadded(es: seq<Store.Entry>, a: Uint64, b: Uint64)
    requires Store.Sorted(es) && es != [] && es[0].key == PaddedKey(a)
    requires PaddedKey(b) in Store.ToMap(es)
    ensures a <= b
  {
    Store.FirstKeyLeast(es);
    PaddedKeyOrder(a, b);
  }

  class BoltDBPool {
    /** db, inflate and deflate are set; Open assigns all three together. */
    var isOpen: bool
    /** Name of the bucket the pool uses. */
    var bucket: string
    /** The bucket: its records in key order, as its cursor visits them, and its sequence counter. */
    var contents: Store.Bucket

    ghost predicate Valid()
      reads this
    {
      Store.Sorted(contents.entries) && (isOpen ==> bucket != "")
    }

    /** The bucket's records as a map from key to value. */
    ghost function Records(): map<string, string>
      reads this
    {
      Store.ToMap(contents.entries)
    }

    /** Every record's key is the key of a sequence number the bucket has handed out. */
    ghost predicate OwnKeys()
      reads this
    {
      forall k :: k in Records() ==> Issued(k, contents.sequence)
    }

    /** NewBoltDBPool: a pool that is not yet open. */
    constructor ()
      ensures Valid() && !isOpen && bucket == ""
      ensures contents == Store.Bucket([], 0)
    {
      isOpen, bucket := false, "";
      contents := Store.Bucket([], 0);
    }

    /**
     * Open with the host and dsn already taken from the URI.  `stored` is the
     * named bucket as the store file at dsn already holds it, or None when
     * the file has no such bucket and CreateBucketIfNotExists makes an empty one.
     */
    method Open(host: string, dsn: string, stored: Option<Store.Bucket>) returns (err: Option<OpenError>)
      requires Valid()
      requires stored.Some? ==> Store.Sorted(stored.value.entries)
      modifies this
      ensures Valid()
      ensures err == CheckConfig(host, dsn)
      ensures err.Some? ==> unchanged(this)
      ensures err.None? ==> isOpen && bucket == host
      ensures err.None? && stored.Some? ==> contents == stored.value
      ensures err.None? && stored.None? ==> Records() == map[] && contents.sequence == 0 && OwnKeys()
    {
      err := CheckConfig(host, dsn);
      if err.Some? {
        return;
      }
      var b := if stored.Some? then stored.value else Store.Bucket([], 0);
      isOpen, bucket := true, host;
      contents := b;
    }

    /** Walks the bucket with a cursor from the first key to the last, counting records. */
    method Length() returns (count: int)
      requires Valid() && isOpen
      ensures count == |Records()|
    {
      count := 0;
      var i := 0;
      while i < |contents.entries|
        invariant 0 <= i <= |contents.entries|
        invariant count == i
      {
        count := count + 1;
        i := i + 1;
      }
      Store.MapSize(contents.entries);
    }

    /**
     * Stores the item's string form under the key of the next sequence
     * number.  While the counter has not wrapped and every key was handed
     * out by this bucket, that key is new: exactly one record is added.
     */
    method Push(pi: Item)
      requires Valid() && isOpen
      modifies this
      ensures Valid() && isOpen && bucket == old(bucket)
      ensures contents.sequence == Store.NextSequence(old(contents.sequence))
      ensures Records() == old(Records())[KeyOf(contents.sequence) := Deflate(pi)]
      ensures old(OwnKeys()) && old(contents.sequence) < Two64 - 1 ==>
                KeyOf(contents.sequence) !in old(Records()) && |Records()| == |old(Records())| + 1 && OwnKeys()
    {
      var v := Deflate(pi);
      var id := Store.NextSequence(contents.sequence);
      var k := KeyOf(id);
      ghost var before, s := Records(), contents.sequence;
      Store.PutSpec(contents.entries, k, v);
      contents := Store.Bucket(Store.Put(contents.entries, k, v), id);
      if old(OwnKeys()) && s < Two64 - 1 {
        PushFresh(before, s, v, Records());
      }
    }

    /**
     * Reads the record under the least key and inflates its value; only if
     * that succeeds is the record deleted and its item returned.  On an
     * empty bucket the cursor yields no value, which reads as the empty text
     * and fails to inflate; on any failure the transaction rolls back.
     */
    method Pop() returns (pi: Option<Item>, ok: bool)
      requires Valid() && isOpen
      modifies this
      ensures Valid() && isOpen && bucket == old(bucket) && contents.sequence == old(contents.sequence)
      ensures ok <==> pi.Some?
      ensures old(Records()) == map[] ==> !ok
      ensures ok <==> old(contents.entries) != [] && Inflate(old(contents.entries[0].value)).Some?
      ensures ok ==> var e := old(contents.entries[0]);
                && e.key in old(Records()) && old(Records())[e.key] == e.value
                && (forall k :: k in old(Records()) ==> k == e.key || Lt(e.key, k))
                && pi == Inflate(e.value)
                && Records() == old(Records()) - {e.key}
                && |Records()| == |old(Records())| - 1
      ensures !ok ==> pi == None && unchanged(this)
      ensures old(OwnKeys()) ==> OwnKeys()
    {
      var first := Store.First(contents.entries);
      var v := if first.Some? then first.value.value else "";
      var p := Inflate(v);
      if p.None? {
        return None, false;
      }
      var k := first.value.key;
      Store.DeleteSpec(contents.entries, k);
      Store.MapSize(contents.entries);
      contents := contents.(entries := Store.Delete(contents.entries, k));
      Store.MapSize(contents.entries);
      pi, ok := p, true;
    }
  }

  /** Two integers pushed into a new bucket come out in push order, then the pool is empty. */
  method Scenario()
  {
    var pl := new BoltDBPool();
    var err := pl.Open("test", "pool.db", None);
    assert err == None;
    assert KeyOf(1) == "1" && KeyOf(2) == "2";
    pl.Push(Int(1));
    pl.Push(Int(2));
    var n := pl.Length();
    assert n == 2;
    PopOldest(pl);
  }

  /** Pops a pool holding records "1" and "2": record "1" comes out first. */
  method PopOldest(pl: BoltDBPool)
    requires pl.Valid() && pl.isOpen
    requires pl.Records() == map["1" := "1", "2" := "2"]
    modifies pl
  {
    assert pl.contents.entries != [] && pl.contents.entries[0] == Store.Entry("1", "1") by {
      ghost var es := pl.contents.entries;
      assert "1" in Store.ToMap(es);
      Store.FirstKeyLeast(es);
      assert !Lt("2", "1");
    }
    assert Inflate("1") == Some(Int(1));
    ghost var r0 := pl.Records();
    var item, ok := pl.Pop();
    assert ok && item == Some(Int(1));
    assert pl.Records() == r0 - {"1"};
    var n := pl.Length();
    assert n == 1;
    PopLast(pl);
  }

  /** Pops a pool holding only record "2", after which Pop finds nothing. */
  method PopLast(pl: BoltDBPool)
    requires pl.Valid() && pl.isOpen
    requires pl.Records().Keys == {"2"} && pl.Records()["2"] == "2"
    modifies pl
  {
    assert pl.contents.entries != [] && pl.contents.entries[0] == Store.Entry("2", "2") by {
      ghost var es := pl.contents.entries;
      assert "2" in Store.ToMap(es);
      Store.FirstKeyLeast(es);
    }
    assert Inflate("2") == Some(Int(2));
    ghost var r0 := pl.Records();
    var item, ok := pl.Pop();
    assert ok && item == Some(Int(2));
    assert pl.Records() == r0 - {"2"};
    var n := pl.Length();
    assert n == 0;
    item, ok := pl.Pop();
    assert !ok;
    n := pl.Length();
    assert n == 0;
  }

  /** Every record's value is its own key, as for integer items pushed in order. */
  ghost predicate SelfValued(m: map<string, string>)
  {
    forall k :: k in m ==> m[k] == k
  }

  /** The keys of records 1 to n are all present. */
  ghost predicate HoldsKeysUpTo(m: map<string, string>, n: nat)
  {
    forall j: Uint64 :: 1 <= j <= n ==> KeyOf(j) in m
  }

  /** Pushing integer n + 1 after 1 to n keeps both shapes, one record further. */
  lemma PushNextInt(m: map<string, string>, n: nat, m': map<string, string>)
    requires n < 10 && SelfValued(m) && HoldsKeysUpTo(m, n)
    requires m' == m[KeyOf(n + 1) := Deflate(Int(n + 1))]
    ensures SelfValued(m') && HoldsKeysUpTo(m', n + 1)
  {
    assert Deflate(Int(n + 1)) == KeyOf(n + 1);
  }

  /** Of the keys of records 1 to 10 with values equal to keys, the least is record 1's. */
  lemma FirstOfTen(es: seq<Store.Entry>)
    requires Store.Sorted(es) && SelfValued(Store.ToMap(es))
    requires forall k :: k in Store.ToMap(es) ==> Issued(k, 10)
    requires KeyOf(1) in Store.ToMap(es)
    ensures es != [] && es[0] == Store.Entry("1", "1")
  {
    NothingBeforeKeyOne(1);
    Store.FirstKeyLeast(es);
    var e := es[0];
    assert Issued(e.key, 10);
    var id: Uint64 :| 1 <= id <= 10 && KeyOf(id) == e.key;
    NothingBeforeKeyOne(id);
  }

  /** With record 1 gone, the least of the keys of records 2 to 10 is record 10's. */
  lemma SecondOfTen(es: seq<Store.Entry>)
    requires Store.Sorted(es) && SelfValued(Store.ToMap(es))
    requires forall k :: k in Store.ToMap(es) ==> Issued(k, 10)
    requires KeyOf(1) !in Store.ToMap(es) && KeyOf(10) in Store.ToMap(es)
    ensures es != [] && es[0] == Store.Entry("10", "10")
  {
    OneDigitKeysAfterTen(2);
    Store.FirstKeyLeast(es);
    var e := es[0];
    assert Issued(e.key, 10);
    var id: Uint64 :| 1 <= id <= 10 && KeyOf(id) == e.key;
    if id != 10 {
      OneDigitKeysAfterTen(id);
      LtAsymmetric("10", e.key);
    }
  }

  /**
   * A new pool after pushing the integers 1 to 10: the bucket holds the keys
   * of records 1 to 10, each handed out by the bucket, each record's value
   * equal to its key.
   */
  method PushOneToTen() returns (pl: BoltDBPool)
    ensures fresh(pl) && pl.Valid() && pl.isOpen && pl.contents.sequence == 10 && pl.OwnKeys()
    ensures SelfValued(pl.Records()) && HoldsKeysUpTo(pl.Records(), 10)
  {
    pl := new BoltDBPool();
    var err := pl.Open("test", "pool.db", None);
    var i := 0;
    while i < 10
      invariant 0 <= i <= 10
      invariant pl.Valid() && pl.isOpen && pl.contents.sequence == i && pl.OwnKeys()
      invariant SelfValued(pl.Records()) && HoldsKeysUpTo(pl.Records(), i)
    {
      ghost var m := pl.Records();
      pl.Push(Int(i + 1));
      PushNextInt(m, i, pl.Records());
      i := i + 1;
    }
  }

  /**
   * Pushes the integers 1 to 10 into a new bucket and pops twice: the first
   * Pop returns 1, the second returns 10 rather than 2, because key "10"
   * sorts before keys "2" to "9".
   */
  method SecondPopAfterTenPushes() returns (first: Option<Item>, second: Option<Item>)
    ensures first == Some(Int(1)) && second == Some(Int(10))
  {
    var pl := PushOneToTen();
    NothingBeforeKeyOne(1);
    OneDigitKeysAfterTen(2);
    FirstOfTen(pl.contents.entries);
    assert Inflate("1") == Some(Int(1));
    ghost var m := pl.Records();
    var ok;
    first, ok := pl.Pop();
    assert pl.Records() == m - {"1"};
    SecondOfTen(pl.contents.entries);
    InflateDeflateInt(10);
    second, ok := pl.Pop();
  }
}
