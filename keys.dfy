/**
 * Record keys: the text a sequence number is stored under.
 *
 * The pool writes strconv.FormatInt(int64(id), 10) for the uint64 id the
 * bucket hands out.  This module keeps that encoding (KeyOf), states where
 * its byte order matches the order of the ids and where it does not, and
 * gives a fixed-width encoding (PaddedKey) whose byte order always matches.
 */
module Keys {
  import opened ByteOrder
  import opened Decimal

  /** Go's int64(id) on a uint64: the same 64 bits read as two's complement. */
  function ToInt64(id: Uint64): (n: Int64)
    ensures 0 <= id < Two63 ==> n == id
    ensures Two63 <= id ==> n < 0
  {
    if id < Two63 then id else id - Two64
  }

  lemma ToInt64Injective(a: Uint64, b: Uint64)
    ensures ToInt64(a) == ToInt64(b) <==> a == b
  {
  }

  /**
   * The key a record with sequence number id is stored under: below 2^63 the
   * digits of id, from 2^63 up a negative number's text.
   */
  function KeyOf(id: Uint64): (k: string)
    ensures id < Two63 ==> |k| >= 1 && AllDigits(k) && Value(k) == id
    ensures Two63 <= id ==> |k| >= 2 && k[0] == '-'
  {
    FormatDec(ToInt64(id))
  }

  /** Distinct sequence numbers give distinct keys, over the whole uint64 range. */
  lemma KeyOfInjective(a: Uint64, b: Uint64)
    ensures KeyOf(a) == KeyOf(b) <==> a == b
  {
    FormatDecInjective(ToInt64(a), ToInt64(b));
    ToInt64Injective(a, b);
  }

  /** Keys with the same number of digits sort in the order of their sequence numbers. */
  lemma KeyOrderSameWidth(a: Uint64, b: Uint64)
    requires a < Two63 && b < Two63
    requires |KeyOf(a)| == |KeyOf(b)|
    ensures Lt(KeyOf(a), KeyOf(b)) <==> a < b
  {
    DigitsOrder(FormatNat(a), FormatNat(b));
  }

  /** Below 2^63 a later sequence number never has fewer digits. */
  lemma KeyWidthMonotone(a: Uint64, b: Uint64)
    requires a <= b < Two63
    ensures |KeyOf(a)| <= |KeyOf(b)|
  {
    FormatNatWidthMonotone(a, b);
  }

  /**
   * The unpadded keys stop following the sequence numbers once they cross a
   * power of ten: the key of record 10 sorts before the key of record 2.
   */
  lemma KeyOrderBreaksPastNine()
    ensures KeyOf(2) == "2" && KeyOf(10) == "10"
    ensures Lt(KeyOf(10), KeyOf(2))
  {
    assert FormatNat(1) == "1";
    assert FormatNat(10) == FormatNat(1) + [DigitChar(0)];
  }

  /** No key of a sequence number from 1 to 2^63 - 1 sorts before the key of record 1. */
  lemma NothingBeforeKeyOne(id: Uint64)
    requires 1 <= id < Two63
    ensures KeyOf(1) == "1" && !Lt(KeyOf(id), "1")
  {
    var k := KeyOf(id);
    assert IsDigit(k[0]) && k[0] != '0';
  }

  /** The one-digit keys of records 2 to 9 sort after the key of record 10. */
  lemma OneDigitKeysAfterTen(id: Uint64)
    requires 2 <= id <= 9
    ensures KeyOf(10) == "10" && Lt("10", KeyOf(id))
  {
    KeyOrderBreaksPastNine();
    assert KeyOf(id) == [DigitChar(id)];
  }

  /** Width of the largest uint64 in decimal (18446744073709551615). */
  const PadWidth: nat := 20

  /** The digits of id left-padded with zeros to PadWidth characters. */
  function PaddedKey(id: Uint64): (k: string)
    ensures |k| == PadWidth && AllDigits(k) && Value(k) == id
  {
    Uint64BelowPow10Twenty();
    FormatNatWidth(id, PadWidth);
    var digits := FormatNat(id);
    ValueZerosPrefix(PadWidth - |digits|, digits);
    Zeros(PadWidth - |digits|) + digits
  }

  /** Padded keys sort exactly in the order of their sequence numbers. */
  lemma PaddedKeyOrder(a: Uint64, b: Uint64)
    ensures Lt(PaddedKey(a), PaddedKey(b)) <==> a < b
    ensures PaddedKey(a) == PaddedKey(b) <==> a == b
  {
    DigitsOrder(PaddedKey(a), PaddedKey(b));
  }
}
