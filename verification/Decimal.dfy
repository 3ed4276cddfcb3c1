/** strconv.FormatInt and strconv.ParseInt in base ten, for 64-bit integers. */
module Decimal {
  import opened Options

  const MIN_INT64 := -0x8000_0000_0000_0000
  const MAX_INT64 := 0x7fff_ffff_ffff_ffff

  predicate IsDigit(c: char) {
    '0' <= c <= '9'
  }

  function Digit(n: nat): (c: char)
    requires n < 10
    ensures IsDigit(c) && c as int - '0' as int == n
  {
    '0' + n as char
  }

  function DigitsOf(n: nat): (s: string)
    ensures s != [] && forall i :: 0 <= i < |s| ==> IsDigit(s[i])
    ensures |s| > 1 ==> s[0] != '0'
    ensures n > 0 ==> s[0] != '0'
  {
    if n < 10 then [Digit(n)] else DigitsOf(n / 10) + [Digit(n % 10)]
  }

  function FormatInt(n: int): string {
    if n < 0 then "-" + DigitsOf(-n) else DigitsOf(n)
  }

  /** The number a digit string spells, or None when some character is not a digit. */
  function Unsigned(s: string): Option<nat> {
    if s == [] then None
    else if !IsDigit(s[|s| - 1]) then None
    else
      var d := s[|s| - 1] as int - '0' as int;
      if |s| == 1 then Some(d)
      else match Unsigned(s[..|s| - 1])
        case None => None
        case Some(n) => Some(10 * n + d)
  }

  /** An optional sign and digits, within 64 bits. */
  function ParseInt(s: string): Option<int> {
    var signed := s != [] && (s[0] == '+' || s[0] == '-');
    match Unsigned(if signed then s[1..] else s)
    case None => None
    case Some(n) =>
      var size: int := n;
      var value: int := if signed && s[0] == '-' then -size else size;
      if MIN_INT64 <= value <= MAX_INT64 then Some(value) else None
  }

  lemma {:induction false} DigitsParse(n: nat)
    ensures Unsigned(DigitsOf(n)) == Some(n)
  {
    var s := DigitsOf(n);
    if n >= 10 {
      DigitsParse(n / 10);
      assert s[..|s| - 1] == DigitsOf(n / 10);
    }
  }

  /** What is formatted is parsed back. */
  lemma FormatParses(n: int)
    requires MIN_INT64 <= n <= MAX_INT64
    ensures ParseInt(FormatInt(n)) == Some(n)
  {
    if n < 0 {
      DigitsParse(-n);
      AfterSign(DigitsOf(-n));
    } else {
      DigitsParse(n);
    }
  }

  lemma AfterSign(s: string)
    ensures ("-" + s)[1..] == s && ("-" + s)[0] == '-'
  {
  }

  // ---- what is parsed --------------------------------------------------------------------

  function Zeros(k: nat): (s: string)
    ensures |s| == k
  {
    if k == 0 then "" else Zeros(k - 1) + "0"
  }

  lemma {:induction false} ZerosParse(k: nat)
    requires k > 0
    ensures Unsigned(Zeros(k)) == Some(0)
  {
    if k > 1 {
      ZerosParse(k - 1);
      assert Zeros(k)[..k - 1] == Zeros(k - 1);
    }
  }

  lemma {:induction false} PaddedParses(k: nat, n: nat)
    ensures Unsigned(Zeros(k) + DigitsOf(n)) == Some(n)
  {
    if n >= 10 {
      PaddedParses(k, n / 10);
      assert Zeros(k) + DigitsOf(n) == (Zeros(k) + DigitsOf(n / 10)) + [Digit(n % 10)];
      OneDigitMore(Zeros(k) + DigitsOf(n / 10), n / 10, n % 10);
    } else if k > 0 {
      ZerosParse(k);
      OneDigitMore(Zeros(k), 0, n);
    }
  }

  lemma OneDigitMore(s: string, n: nat, d: nat)
    requires s != "" && Unsigned(s) == Some(n) && d < 10
    ensures Unsigned(s + [Digit(d)]) == Some(10 * n + d)
  {
    assert (s + [Digit(d)])[..|s|] == s;
  }

  lemma {:induction false} ParsedIsPadded(s: string) returns (k: nat)
    requires Unsigned(s).Some?
    ensures s == Zeros(k) + DigitsOf(Unsigned(s).value)
  {
    var n, init := Unsigned(s).value, s[..|s| - 1];
    assert s == init + [s[|s| - 1]];
    if |s| == 1 {
      k := 0;
      assert s == DigitsOf(n);
    } else {
      var q := Unsigned(init).value;
      k := ParsedIsPadded(init);
      assert n / 10 == q && Digit(n % 10) == s[|s| - 1];
      if q == 0 {
        k := k + 1;
        assert init == Zeros(k);
      }
    }
  }

  /** The number in digits after any zeros and a sign, which a negative number needs. */
  ghost predicate Spelled(s: string, n: int, k: nat) {
    if n < 0 then s == "-" + (Zeros(k) + DigitsOf(-n))
    else
      var digits := Zeros(k) + DigitsOf(n);
      s == digits || s == "+" + digits || (n == 0 && s == "-" + digits)
  }

  /** Exactly the spellings of 64-bit numbers are parsed. */
  lemma ParsesExactly(s: string, n: int)
    ensures ParseInt(s) == Some(n) <==> MIN_INT64 <= n <= MAX_INT64 && exists k: nat :: Spelled(s, n, k)
  {
    if ParseInt(s) == Some(n) {
      var k := ParsedIsSpelled(s);
    }
    if k: nat :| Spelled(s, n, k) {
      SpelledParses(s, n, k);
    }
  }

  lemma ParsedIsSpelled(s: string) returns (k: nat)
    requires ParseInt(s).Some?
    ensures Spelled(s, ParseInt(s).value, k)
  {
    var signed := s[0] == '+' || s[0] == '-';
    k := ParsedIsPadded(if signed then s[1..] else s);
    assert signed ==> s == [s[0]] + s[1..];
  }

  lemma SpelledParses(s: string, n: int, k: nat)
    requires Spelled(s, n, k)
    ensures ParseInt(s) == if MIN_INT64 <= n <= MAX_INT64 then Some(n) else None
  {
    var size := if n < 0 then -n else n;
    PaddedParses(k, size);
    FirstIsDigit(k, size);
    PlainOrSigned(s, Zeros(k) + DigitsOf(size), size);
  }

  lemma PlainOrSigned(s: string, digits: string, size: nat)
    requires digits != "" && IsDigit(digits[0]) && Unsigned(digits) == Some(size)
    ensures s == digits || s == "+" + digits ==> ParseInt(s) == if size <= MAX_INT64 then Some(size) else None
    ensures s == "-" + digits ==>
      var n: int := size; ParseInt(s) == if MIN_INT64 <= -n then Some(-n) else None
  {
    assert ("+" + digits)[1..] == digits && ("-" + digits)[1..] == digits;
  }

  lemma FirstIsDigit(k: nat, n: nat)
    ensures IsDigit((Zeros(k) + DigitsOf(n))[0])
  {
    if k > 0 {
      ZeroFirst(k);
    }
  }

  lemma {:induction false} ZeroFirst(k: nat)
    requires k > 0
    ensures Zeros(k)[0] == '0'
  {
    if k > 1 {
      ZeroFirst(k - 1);
    }
  }

  /** Different numbers are formatted differently. */
  lemma FormatsApart(m: nat, n: nat)
    requires FormatInt(m) == FormatInt(n)
    ensures m == n
  {
    DigitsParse(m);
    DigitsParse(n);
  }
}
