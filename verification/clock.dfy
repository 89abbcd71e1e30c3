/**
 * Python's `<=` on `str` (lexicographic by code point), which the schedule
 * store uses to compare `HH:MM` times and SQLite's BINARY collation uses
 * for `ORDER BY` (UTF-8 byte order is code-point order), and the fact that
 * makes it a time comparison: on zero-padded `HH:MM` strings it agrees
 * with the order of minutes since midnight.
 */
module Clock {
  import opened Chars

  /** `a <= b` on Python strings. */
  predicate StrLe(a: string, b: string)
  {
    if a == [] then true
    else if b == [] then false
    else if a[0] != b[0] then a[0] < b[0]
    else StrLe(a[1..], b[1..])
  }

  /** `a < b` on Python strings. */
  predicate StrLt(a: string, b: string)
  {
    StrLe(a, b) && a != b
  }

  lemma {:induction false} StrLeReflexive(a: string)
    ensures StrLe(a, a)
  {
    if a != [] {
      StrLeReflexive(a[1..]);
    }
  }

  lemma {:induction false} StrLeAntisymmetric(a: string, b: string)
    requires StrLe(a, b) && StrLe(b, a)
    ensures a == b
  {
    if a != [] && b != [] {
      StrLeAntisymmetric(a[1..], b[1..]);
      assert a == [a[0]] + a[1..] && b == [b[0]] + b[1..];
    }
  }

  lemma {:induction false} StrLeTransitive(a: string, b: string, c: string)
    requires StrLe(a, b) && StrLe(b, c)
    ensures StrLe(a, c)
  {
    if a != [] && b != [] && c != [] && a[0] == b[0] && b[0] == c[0] {
      StrLeTransitive(a[1..], b[1..], c[1..]);
    }
  }

  lemma {:induction false} StrLeTotal(a: string, b: string)
    ensures StrLe(a, b) || StrLe(b, a)
  {
    if a != [] && b != [] && a[0] == b[0] {
      StrLeTotal(a[1..], b[1..]);
    }
  }

  /** Strict order is the complement of the reversed non-strict one. */
  lemma StrLtIsNotReverseLe(a: string, b: string)
    ensures StrLt(a, b) <==> !StrLe(b, a)
  {
    StrLeTotal(a, b);
    if StrLe(a, b) && StrLe(b, a) {
      StrLeAntisymmetric(a, b);
    }
    if a == b {
      StrLeReflexive(a);
    }
  }

  /** A zero-padded 24-hour `HH:MM` time. */
  predicate IsClockTime(t: string)
  {
    && |t| == 5
    && IsDigit(t[0]) && IsDigit(t[1]) && t[2] == ':' && IsDigit(t[3]) && IsDigit(t[4])
    && DigitValue(t[0]) * 10 + DigitValue(t[1]) < 24
    && DigitValue(t[3]) < 6
  }

  /** Minutes since midnight of an `HH:MM` time. */
  function Minutes(t: string): (m: nat)
    requires IsClockTime(t)
    ensures m < 24 * 60
  {
    (DigitValue(t[0]) * 10 + DigitValue(t[1])) * 60 + DigitValue(t[3]) * 10 + DigitValue(t[4])
  }

  /** Digits order like their values. */
  lemma DigitOrder(c: char, d: char)
    requires IsDigit(c) && IsDigit(d)
    ensures c < d <==> DigitValue(c) < DigitValue(d)
    ensures c == d <==> DigitValue(c) == DigitValue(d)
  {
  }

  /**
   * Comparing two zero-padded `HH:MM` strings as text compares the times
   * they denote.
   */
  lemma ClockOrderIsTimeOrder(a: string, b: string)
    requires IsClockTime(a) && IsClockTime(b)
    ensures StrLe(a, b) <==> Minutes(a) <= Minutes(b)
  {
    DigitOrder(a[0], b[0]);
    DigitOrder(a[1], b[1]);
    DigitOrder(a[3], b[3]);
    DigitOrder(a[4], b[4]);
    var h0, h1, m0, m1 := DigitValue(a[0]), DigitValue(a[1]), DigitValue(a[3]), DigitValue(a[4]);
    var k0, k1, n0, n1 := DigitValue(b[0]), DigitValue(b[1]), DigitValue(b[3]), DigitValue(b[4]);
    assert Minutes(a) == h0 * 600 + h1 * 60 + m0 * 10 + m1;
    assert Minutes(b) == k0 * 600 + k1 * 60 + n0 * 10 + n1;
    if a[0] != b[0] {
      assert StrLe(a, b) <==> h0 < k0;
    } else if a[1] != b[1] {
      StrLeDropsCommonPrefix(a, b, 1);
      assert StrLe(a, b) <==> h1 < k1;
    } else if a[3] != b[3] {
      StrLeDropsCommonPrefix(a, b, 3);
      assert a[3..][0] == a[3] && b[3..][0] == b[3];
      assert StrLe(a, b) <==> m0 < n0;
    } else {
      StrLeDropsCommonPrefix(a, b, 4);
      assert a[4..] == [a[4]] && b[4..] == [b[4]];
      assert StrLe(a, b) <==> m1 <= n1;
    }
  }

  /** Text order skips a common prefix. */
  lemma {:induction false} StrLeDropsCommonPrefix(a: string, b: string, k: nat)
    requires k <= |a| && k <= |b| && a[..k] == b[..k]
    ensures StrLe(a, b) == StrLe(a[k..], b[k..])
  {
    if k > 0 {
      assert a[0] == a[..k][0] == b[..k][0] == b[0];
      assert a[1..][..k - 1] == a[1..k] == b[1..k] == b[1..][..k - 1];
      StrLeDropsCommonPrefix(a[1..], b[1..], k - 1);
      assert a[1..][k - 1..] == a[k..] && b[1..][k - 1..] == b[k..];
    }
  }

  /**
   * Without zero padding the text order is not the time order: `10:00`
   * sorts before `9:00`.
   */
  lemma UnpaddedTimeSortsOutOfOrder()
    ensures StrLt("10:00", "9:00")
  {
  }
}
