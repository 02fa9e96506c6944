/**
 * The order in which the store keeps and iterates keys: byte-lexicographic,
 * a proper prefix sorting before any of its extensions.  The keys the pool
 * writes are ASCII text; other keys are compared by code point, which orders
 * them as their UTF-8 bytes would be ordered.
 */
module ByteOrder {

  /** a sorts strictly before b: the first differing character decides, and a proper prefix comes first. */
  predicate Lt(a: string, b: string)
    ensures |a| < |b| && a == b[..|a|] ==> Lt(a, b)
  {
    if |a| == 0 then |b| > 0
    else if |b| == 0 then false
    else if a[0] != b[0] then a[0] < b[0]
    else
      assert |a| < |b| && a == b[..|a|] ==> a[1..] == b[1..][..|a| - 1];
      Lt(a[1..], b[1..])
  }

  lemma {:induction false} LtIrreflexive(a: string)
    ensures !Lt(a, a)
  {
    if |a| > 0 {
      LtIrreflexive(a[1..]);
    }
  }

  lemma {:induction false} LtAsymmetric(a: string, b: string)
    requires Lt(a, b)
    ensures !Lt(b, a)
  {
    if |a| > 0 && |b| > 0 && a[0] == b[0] {
      LtAsymmetric(a[1..], b[1..]);
    }
  }

  lemma {:induction false} LtTransitive(a: string, b: string, c: string)
    requires Lt(a, b) && Lt(b, c)
    ensures Lt(a, c)
  {
    if |a| > 0 && |b| > 0 && |c| > 0 && a[0] == b[0] && b[0] == c[0] {
      LtTransitive(a[1..], b[1..], c[1..]);
    }
  }

  /** Any two distinct keys are ordered one way or the other. */
  lemma {:induction false} LtTotal(a: string, b: string)
    ensures a == b || Lt(a, b) || Lt(b, a)
  {
    if |a| > 0 && |b| > 0 && a[0] == b[0] {
      LtTotal(a[1..], b[1..]);
      assert a == [a[0]] + a[1..] && b == [b[0]] + b[1..];
    }
  }

  /**
   * Comparing two equally long strings extended by one character each:
   * the prefixes decide, and only equal prefixes leave it to the last character.
   */
  lemma {:induction false} LtSnoc(s: string, t: string, c: char, d: char)
    requires |s| == |t|
    ensures Lt(s + [c], t + [d]) <==> Lt(s, t) || (s == t && c < d)
  {
    if |s| > 0 && s[0] == t[0] {
      assert (s + [c])[1..] == s[1..] + [c];
      assert (t + [d])[1..] == t[1..] + [d];
      LtSnoc(s[1..], t[1..], c, d);
      assert s == [s[0]] + s[1..] && t == [t[0]] + t[1..];
    }
  }
}
