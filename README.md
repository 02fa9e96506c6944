# A durable item pool on an ordered key-value store, in Dafny

This project models the boltdb backend of the go-pool abstraction. The backend is a queue of
items kept in one bucket of an embedded, transactional, ordered key-value store:

- `Open` checks the configuration: the bucket name (the URI's host) and the `dsn` query parameter.
  On success it sets the pool's fields, and the named bucket exists from then on.
- `Push` stores the item's string form. The key is the decimal text of the bucket's next sequence
  number.
- `Pop` reads the record under the least key and parses its value as a base-10 int64. Only if the
  parse succeeds does it delete the record and return the integer item with `true`. Otherwise the
  transaction rolls back and `Pop` returns `(nil, false)`.
- `Length` walks the bucket with a cursor and counts the records.

The store is treated as a black box with three properties: a bucket is a map from keys to values
iterated in byte order of the keys, a bucket has a uint64 sequence counter, and a transaction
either commits or leaves everything as it was.

Modules, one per concern:

- `ByteOrder` (`byteorder.dfy`): `Lt`, the byte-lexicographic order the store keeps keys in
  (a prefix sorts first). It is proved to be a strict total order.
- `Decimal` (`decimal.dfy`): `FormatDec` and `ParseDec`, which model `strconv.FormatInt(n, 10)` and
  `strconv.ParseInt(s, 10, 64)`. `ParseDec` accepts an optional sign, then one or more digits
  (leading zeros allowed), and only values in the int64 range. The module also proves the
  round trip between the two and that equal-length digit strings sort numerically.
- `Keys` (`keys.dfy`): the record key `KeyOf(id) = FormatInt(int64(id), 10)`, with Go's
  uint64-to-int64 reinterpretation written out (`ToInt64`). It also holds the fixed-width
  `PaddedKey` encoding used by the finding below.
- `Store` (`store.dfy`): a bucket as the key-sorted sequence of its records. This is the order a
  cursor visits them in: `First` is position 0 and `Next` is the following position. `ToMap` is
  the map view. The module has the store operations the pool calls: `Put`, `Delete`, `First` and
  `NextSequence`. `NextSequence` wraps past 2^64 - 1, as the store's uint64 counter does.
- `BoltDB` (`boltdb.dfy`): the item type (text or int64), the `deflate` and `inflate` closures,
  the configuration check, and the class `BoltDBPool` with `Open`, `Push`, `Pop` and `Length`.
  `Scenario`, `PopOldest` and `PopLast` are client methods that use the contracts alone. After
  two integers are pushed into a new bucket, `Length` reports 2, 1, 0 and 0: after the pushes,
  after each of the two `Pop`s (which return the integers oldest first), and after a third `Pop`,
  which finds nothing. `SecondPopAfterTenPushes` pushes the integers 1 to 10 the same way and
  shows that the second `Pop` returns 10 (see Findings).

Modelling choices:

- Keys and values are `string` (`seq<char>`). The keys this pool writes are ASCII digits and `-`.
  Other keys, in a bucket taken over from an existing file, are compared by code point, which
  orders them as their UTF-8 bytes would be ordered. Values are never compared.
- `Open` takes the host and `dsn` already extracted from the URI. It also takes `stored`: the named
  bucket as the store file already holds it, or `None` when `CreateBucketIfNotExists` has to make
  an empty one.
- A pool item is `Text(s)` or `Int(n)`. The string form of `Int(n)` is taken to be its decimal
  text. `pool.Item` is not part of this model.
- `isOpen` stands for the fields `db`, `inflate` and `deflate` being set. `Open` assigns all three
  together at boltdb.go:99-102.
- An empty bucket needs no check of its own in `Pop`. The cursor yields a nil
  value, `string(nil)` is `""`, `ParseInt("")` fails, and the rolled-back transaction shows as
  `ok == false`. There is no separate empty-bucket check.
- `Push` can be sure its key is new only under two conditions: the counter has not wrapped, and
  every live key was handed out by this bucket (`OwnKeys`). A bucket adopted from an existing file
  may hold other keys. `Push` then behaves as `Put` does and overwrites.
- A pushed text item comes back only if the text is a base-10 int64, and then it comes back as an
  integer item. Any other text (`"a"`) makes every `Pop` fail while it holds the least key.

## Model

| member | source | states |
|---|---|---|
| ByteOrder.Lt | boltdb.go:165 | the order the cursor visits keys in: the first differing character decides, and a proper prefix sorts before its extensions; LtTotal, LtTransitive and LtIrreflexive prove it a strict total order |
| ByteOrder.LtTotal | boltdb.go:165 | any two distinct keys are ordered one way or the other, so a non-empty bucket has one least key for the cursor's First |
| ByteOrder.LtTransitive | boltdb.go:165 | the store's key order is transitive |
| ByteOrder.LtIrreflexive | boltdb.go:165 | no key sorts before itself |
| Decimal.FormatNat | boltdb.go:149 | the decimal text of a natural number is non-empty, all digits, denotes the number, and has no leading zero unless the number is zero |
| Decimal.FormatDec | boltdb.go:149 | strconv.FormatInt(n, 10): for n >= 0 a non-empty digit string whose value is n, for n < 0 a minus sign followed by digits whose value is -n; ParseFormatDec and FormatDecInjective hold its promises |
| Decimal.ParseDec | boltdb.go:64 | strconv.ParseInt(s, 10, 64): only an optional sign followed by one or more digits can parse, so the empty text (what a nil value reads as), a lone sign and any other character give None; a digit string, leading zeros allowed, gives its value exactly when that is below 2^63; a leading '+' reads as the digits after it; a leading '-' gives minus the value of the digits exactly when that value is at most 2^63 |
| Decimal.ParseFormatDec | boltdb.go:64 | ParseInt of the FormatInt text of any int64 returns that same int64 |
| Decimal.FormatDecInjective | boltdb.go:149 | two int64 values have the same decimal text exactly when they are equal |
| Decimal.DigitsOrder | boltdb.go:149 | for digit strings of equal length, byte order is numeric order and equality of text is equality of value |
| Keys.KeyOf | boltdb.go:149 | strconv.FormatInt(int64(id), 10): below 2^63 a digit string whose value is id, from 2^63 up text that starts with a minus sign; KeyOfInjective, KeyOrderSameWidth and KeyOrderBreaksPastNine state how keys relate to ids |
| Keys.ToInt64 | boltdb.go:149 | int64(id) leaves ids below 2^63 unchanged and makes the larger ones negative |
| Keys.KeyOfInjective | boltdb.go:149 | two sequence numbers anywhere in the uint64 range have the same key exactly when they are equal |
| Keys.KeyOrderSameWidth | boltdb.go:149 | for ids below 2^63 whose keys have the same number of digits, one key sorts before the other exactly when its id is smaller |
| Keys.KeyWidthMonotone | boltdb.go:149 | below 2^63 a later sequence number never has a shorter key |
| Keys.KeyOrderBreaksPastNine | boltdb.go:149 | the keys of ids 2 and 10 are "2" and "10", and "10" sorts before "2" |
| Keys.PaddedKey | boltdb.go:149 | corrected encoding: the key is exactly 20 digits and denotes the id |
| Keys.PaddedKeyOrder | boltdb.go:149 | corrected encoding: one padded key sorts before another exactly when its id is smaller, and equal keys mean equal ids |
| Store.NextSequence | boltdb.go:143 | the next sequence number is one more than the counter, and 0 once the counter is at 2^64 - 1 |
| Store.First | boltdb.go:165 | the cursor finds nothing exactly when the bucket is empty; otherwise it finds a record of the bucket whose key lies below every other key |
| Store.Put | boltdb.go:152 | b.Put on the sorted records: replaces the value of an existing key, or inserts the record at its place in key order; PutSpec states its promise |
| Store.PutSpec | boltdb.go:152 | Put keeps the records in key order; afterwards the key holds the new value and every other key holds what it held |
| Store.Delete | boltdb.go:173 | b.Delete on the sorted records: drops the record with that key, if any; DeleteSpec states its promise |
| Store.DeleteSpec | boltdb.go:173 | Delete keeps the records in key order; afterwards the key is gone and every other key holds what it held |
| Store.MapSize | boltdb.go:121-123 | the cursor visits as many records as the bucket has keys |
| BoltDB.Deflate | boltdb.go:56-58 | the deflate closure: a text item is stored as its text, an integer item as its FormatInt text, and it never fails; InflateDeflateInt, InflateDeflateNumericText and InflateDeflateOtherText state what comes back |
| BoltDB.Inflate | boltdb.go:60-71 | the inflate closure: the stored value is parsed with ParseDec and a parsed value becomes an integer item, a parse error becomes None; the InflateDeflate lemmas state the round trip |
| BoltDB.InflateDeflateInt | boltdb.go:56-71 | an integer item that is deflated and then inflated comes back as the same integer item |
| BoltDB.InflateDeflateNumericText | boltdb.go:56-71 | a text item holding the decimal text of an int64 comes back as that integer item, not as text |
| BoltDB.InflateDeflateOtherText | boltdb.go:56-71 | the text item "a" is stored but cannot be inflated |
| BoltDB.Message | boltdb.go:46-53 | the error texts: "Missing bucket" and "Missing dsn"; CheckConfig states which one Open returns |
| BoltDB.CheckConfig | boltdb.go:43-54 | an empty host fails with the error "Missing bucket", whatever the dsn; a non-empty host with an empty dsn fails with "Missing dsn"; both non-empty passes |
| BoltDB.FreshKey | boltdb.go:143-149 | while the counter is below 2^64 - 1, the key of the next sequence number differs from every key handed out before |
| BoltDB.PopTakesOldestOfSameWidth | boltdb.go:165 | if the least key and another live key have the same digit count, the record under the least key has the smaller sequence number |
| BoltDB.PopOutOfOrderPastNine | boltdb.go:165 | a bucket holding records 2 and 10 has record 10 first, so Pop reads the newer record |
| BoltDB.SecondPopAfterTenPushes | boltdb.go:131-188 | through the pool's own Open, Push and Pop: after pushing the integers 1 to 10 into a new bucket, the first Pop returns 1 and the second returns 10, not 2 |
| BoltDB.PopTakesOldestPadded | boltdb.go:165 | corrected encoding: the record under the least padded key is older than every other live record |
| BoltDB.BoltDBPool.constructor | boltdb.go:30-33 | a new pool is not open and has no bucket name |
| BoltDB.BoltDBPool.Open | boltdb.go:35-105 | the result is exactly the configuration check. On an error nothing in the pool changes. On success the pool is open on the named bucket, holding the stored records and counter, or an empty bucket with counter 0 whose keys are all its own |
| BoltDB.BoltDBPool.Length | boltdb.go:111-129 | returns exactly the number of records in the bucket and changes nothing |
| BoltDB.BoltDBPool.Push | boltdb.go:131-154 | advances the counter by NextSequence and stores the item's string form under the key of the new number, leaving every other record unchanged. While the counter has not wrapped and all keys are the bucket's own, the key is new, the record count grows by one, and the keys stay the bucket's own |
| BoltDB.BoltDBPool.Pop | boltdb.go:156-188 | succeeds exactly when the bucket is non-empty and the value under its least key inflates. Then it returns that item, deletes exactly that record and the count drops by one. Otherwise it returns nothing and leaves the pool unchanged. An empty bucket always fails. The counter never changes |

## Left out

- `url.Parse` and `Query().Get("dsn")` (boltdb.go:37-50) are library calls. `Open` takes the host and `dsn` already extracted, so the URI parse error at boltdb.go:39-41 is not modelled.
- `bolt.Open` with mode 0600, `Begin`, `CreateBucketIfNotExists` and `Commit` (boltdb.go:73-97) are store internals. They are modelled as succeeding, and the existing file is represented by the `stored` parameter. Other buckets in the same file are not modelled.
- Store failures inside `Push` and `Pop` (`NextSequence`, `Put` and `Delete` errors at boltdb.go:143-147, 152 and 173-177) are not modelled. Each operation is one committed step. `Push` ignoring the error of `Update` (boltdb.go:133) has no effect in the model for the same reason.
- The `deflate` error branch in `Push` (boltdb.go:137-141) is dead code, because `deflate` always returns a nil error. `Deflate` is a total function.
- The type assertions `rsp.([]byte)` and `i.(string)` (boltdb.go:62, boltdb.go:150) cannot fail for the values these closures receive, so they are not modelled.
- The `init` registration with `pool.Register` (boltdb.go:12-16) is a global load-time side effect and is left out.
- Concurrency between transactions is left out. The store serialises writers, and `Length`'s read transaction sees a snapshot.
- The `db` handle leaked when `Open` fails after `bolt.Open` (boltdb.go:73-97) is resource handling and is not modelled.
- `pool.Item`, its `String()` method and `pool.NewIntItem` are foreign types. An item is `Text` or `Int`. The string form of `Int(n)` is assumed to be `FormatInt(n, 10)`.
- `boltdb_test.go` is not used as a source of properties. It is written against a different pool API, with context arguments and a `Push` that returns an error. It expects last-in-first-out order, which contradicts the first-key `Pop` at boltdb.go:165.
- BoltDB.BoltDBPool.Length: the count is an unbounded `int`. The source's `int64` could only wrap past 2^63 - 1 records.
- BoltDB.BoltDBPool.Push: the new-key guarantee is stated only while the counter is below 2^64 - 1 and every live key was handed out by this bucket. Past the wrap, or with a bucket adopted from a file that holds other keys, `Push` overwrites as `Put` does, and the model says exactly that.
- Strings are sequences of characters, not bytes. Item text is never compared, so UTF-8 encoding plays no part.
- Keys in a stored bucket that are not valid UTF-8 cannot be represented, because a key is a sequence of characters.

## Findings

| source | as written | input that shows it | evidently intended | confidence | as-written member | corrected member |
|---|---|---|---|---|---|---|
| boltdb.go:149 | the key is the unpadded decimal text of the sequence number, and `Pop` (boltdb.go:165) takes the byte-least key | records 2 and 10 both live: key "10" sorts before key "2", so `Pop` returns record 10 before record 2 | first-in-first-out order, which needs keys whose byte order is the order of sequence numbers, such as zero-padded fixed-width digits | high (proved; not executed) | BoltDB.SecondPopAfterTenPushes | BoltDB.PopTakesOldestPadded |

The as-written half runs through the pool itself: `BoltDB.SecondPopAfterTenPushes` pushes the
integers 1 to 10 into a new bucket with `Push` and pops twice with `Pop`, and the second `Pop`
returns 10. `BoltDB.PopOutOfOrderPastNine` shows the same on a two-record bucket. The as-written
order holds only while every live key has the same width: see `Keys.KeyOrderSameWidth` and
`BoltDB.PopTakesOldestOfSameWidth`. The corrected encoding `Keys.PaddedKey` writes every uint64
as exactly 20 digits, and `Keys.PaddedKeyOrder` proves that its byte order is the order of
sequence numbers. `BoltDB.BoltDBPool` keeps the as-written key, because it models the code as it
is. The first-in-first-out statement about the corrected encoding is the lemma
`BoltDB.PopTakesOldestPadded`.
