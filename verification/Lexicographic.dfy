/** Fixed-width numerals and the order of strings. */
module Lexicographic {
  import opened Numbers

  /** a comes before b: they differ first at a place both have. */
  ghost predicate Less(a: seq<int>, b: seq<int>) {
    exists k :: FirstDifference(a, b, k)
  }

  ghost predicate FirstDifference(a: seq<int>, b: seq<int>, k: int) {
    0 <= k < |a| && k < |b| && a[..k] == b[..k] && a[k] < b[k]
  }

  lemma LessIsStrict(a: seq<int>, b: seq<int>)
    requires Less(a, b)
    ensures !Less(b, a)
  {
    var k :| FirstDifference(a, b, k);
    forall l ensures !FirstDifference(b, a, l) {
      if k < l <= |a| && l <= |b| {
        assert a[..l][k] == a[k] && b[..l][k] == b[k];
      } else if 0 <= l < k {
        assert a[..k][l] == a[l] && b[..k][l] == b[l];
      }
    }
  }

  lemma LessThenAnything(a: seq<int>, b: seq<int>, x: seq<int>, y: seq<int>)
    requires Less(a, b)
    ensures Less(a + x, b + y)
  {
    var k :| FirstDifference(a, b, k);
    assert (a + x)[..k] == a[..k] && (b + y)[..k] == b[..k];
    assert FirstDifference(a + x, b + y, k);
  }

  lemma SameThenLess(p: seq<int>, x: seq<int>, y: seq<int>)
    requires Less(x, y)
    ensures Less(p + x, p + y)
  {
    var k :| FirstDifference(x, y, k);
    assert (p + x)[..|p| + k] == p + x[..k] && (p + y)[..|p| + k] == p + y[..k];
    assert FirstDifference(p + x, p + y, |p| + k);
  }

  /** The k lowest digits of n, highest first. */
  function Digits(n: nat, base: nat, k: nat): (r: seq<int>)
    requires base >= 2
    ensures |r| == k && forall i :: 0 <= i < k ==> 0 <= r[i] < base
  {
    if k == 0 then [] else Digits(n / base, base, k - 1) + [n % base]
  }

  /** The number that digits spell, highest first. */
  function NumberIn(digits: seq<int>, base: nat): int {
    if digits == [] then 0
    else
      var last := |digits| - 1;
      NumberIn(digits[..last], base) * base + digits[last]
  }

  lemma NumberMore(digits: seq<int>, last: int, base: nat)
    ensures NumberIn(digits + [last], base) == NumberIn(digits, base) * base + last
  {
    assert (digits + [last])[..|digits|] == digits;
  }

  /** The digits of a number spell it, if there are enough of them. */
  lemma {:induction false} DigitsSpell(n: nat, base: nat, k: nat)
    requires base >= 2 && n < Power(base, k)
    ensures NumberIn(Digits(n, base, k), base) == n
    decreases k
  {
    if k > 0 {
      var q, r := LastDigitOf(n, base, k);
      DigitsSpell(q, base, k - 1);
      NumberMore(Digits(q, base, k - 1), r, base);
    }
  }

  lemma LastDigitOf(n: nat, base: nat, k: nat) returns (q: nat, r: nat)
    requires base >= 2 && k > 0 && n < Power(base, k)
    ensures q < Power(base, k - 1) && q * base + r == n && Digits(n, base, k) == Digits(q, base, k - 1) + [r]
  {
    q, r := n / base, n % base;
    QuotientFits(n, base, k);
    Remains(n, base);
  }

  lemma QuotientFits(n: nat, base: nat, k: nat)
    requires base >= 2 && k > 0 && n < Power(base, k)
    ensures n / base < Power(base, k - 1)
  {
    QuotientBound(n, base, Power(base, k - 1));
  }

  lemma Remains(n: nat, base: nat)
    requires base >= 2
    ensures n / base * base + n % base == n
  {
  }

  lemma QuotientOrder(n: nat, m: nat, base: nat)
    requires base >= 2 && n < m
    ensures n / base <= m / base
    ensures n / base == m / base ==> n % base < m % base
  {
    Quotients(base, n / base, m / base, n % base, m % base);
  }

  lemma Quotients(base: nat, p: nat, q: nat, r: nat, s: nat)
    requires s < base && base * p + r < base * q + s
    ensures p <= q && (p == q ==> r < s)
  {
    Times(base, q + 1, p);
  }

  lemma QuotientBound(m: nat, base: nat, p: nat)
    requires base >= 2 && m < base * p
    ensures m / base < p
  {
    var q := m / base;
    assert m == base * q + m % base;
    Times(base, p, q);
  }

  /** A higher head decides; under equal heads the last digit does. */
  lemma LastDigit(a: seq<int>, b: seq<int>, r: int, s: int)
    requires Less(a, b) || (a == b && r < s)
    ensures Less(a + [r], b + [s])
  {
    if Less(a, b) {
      LessThenAnything(a, b, [r], [s]);
    } else {
      assert FirstDifference([r], [s], 0);
      SameThenLess(a, [r], [s]);
    }
  }

  /** Two numerals without their last digits. */
  lemma Split(n: nat, m: nat, base: nat, k: nat) returns (p: nat, q: nat, r: int, s: int)
    requires base >= 2 && k > 0 && n < m < Power(base, k)
    ensures p <= q < Power(base, k - 1) && (p == q ==> r < s)
    ensures Digits(n, base, k) == Digits(p, base, k - 1) + [r] && Digits(m, base, k) == Digits(q, base, k - 1) + [s]
  {
    QuotientOrder(n, m, base);
    QuotientBound(m, base, Power(base, k - 1));
    p, q, r, s := n / base, m / base, n % base, m % base;
  }

  /** Numerals of one width are ordered as their numbers. */
  lemma {:induction false} DigitsOrder(n: nat, m: nat, base: nat, k: nat)
    requires base >= 2 && n < m < Power(base, k)
    ensures Less(Digits(n, base, k), Digits(m, base, k))
    decreases k
  {
    if k > 0 {
      var p, q, r, s := Split(n, m, base, k);
      if p < q {
        DigitsOrder(p, q, base, k - 1);
      }
      LastDigit(Digits(p, base, k - 1), Digits(q, base, k - 1), r, s);
    }
  }

  /** Sequences of one length that differ do so before their last element, or only there. */
  lemma ButLast(a: seq<int>, b: seq<int>)
    requires |a| == |b| && Less(a, b)
    ensures a != [] && (Less(a[..|a| - 1], b[..|b| - 1]) || (a[..|a| - 1] == b[..|b| - 1] && a[|a| - 1] < b[|b| - 1]))
  {
    var n := |a| - 1;
    var k :| FirstDifference(a, b, k);
    if k < n {
      assert a[..n][..k] == a[..k] && b[..n][..k] == b[..k];
      assert FirstDifference(a[..n], b[..n], k);
    }
  }

  /** A string as the sequence of its characters' codes: strings compare byte by byte. */
  function Codes(s: string): seq<int> {
    seq(|s|, i requires 0 <= i < |s| => s[i] as int)
  }

  ghost predicate Before(a: string, b: string) {
    Less(Codes(a), Codes(b))
  }

  /** Digits written with characters that ascend keep their order. */
  lemma WrittenInOrder(a: seq<int>, b: seq<int>, alphabet: string, s: string, t: string)
    requires Less(a, b) && |s| == |a| && |t| == |b|
    requires forall i, j :: 0 <= i < j < |alphabet| ==> alphabet[i] < alphabet[j]
    requires forall i :: 0 <= i < |a| ==> 0 <= a[i] < |alphabet| && s[i] == alphabet[a[i]]
    requires forall i :: 0 <= i < |b| ==> 0 <= b[i] < |alphabet| && t[i] == alphabet[b[i]]
    ensures Before(s, t)
  {
    var k :| FirstDifference(a, b, k);
    forall i | 0 <= i < k ensures s[i] == t[i] {
      assert a[..k][i] == b[..k][i];
    }
    assert Codes(s)[..k] == Codes(t)[..k];
    assert FirstDifference(Codes(s), Codes(t), k);
  }

  lemma BeforeThenAnything(a: string, b: string, x: string, y: string)
    requires Before(a, b)
    ensures Before(a + x, b + y)
  {
    LessThenAnything(Codes(a), Codes(b), Codes(x), Codes(y));
    assert Codes(a + x) == Codes(a) + Codes(x) && Codes(b + y) == Codes(b) + Codes(y);
  }

  lemma SameThenBefore(p: string, x: string, y: string)
    requires Before(x, y)
    ensures Before(p + x, p + y)
  {
    SameThenLess(Codes(p), Codes(x), Codes(y));
    assert Codes(p + x) == Codes(p) + Codes(x) && Codes(p + y) == Codes(p) + Codes(y);
  }
}
