/** Canonical identity: numeric identifiers lose their prefix and spelling, others are kept as they are. */
module Identity {
  import opened Options
  import opened Numbers
  import opened Decimal

  datatype Canonical = Canonical(id: string, number: int, numeric: bool)

  /** canonicalIdentityID; forbidden is the library's test for control and space characters. */
  function CanonicalID(forbidden: char -> bool, value: string): Option<Canonical> {
    if value == "" || |value| > 256 || exists i :: 0 <= i < |value| && forbidden(value[i]) then None
    else
      match ParseInt(if "usr_" <= value then value[4..] else value)
      case Some(n) => if n <= 0 then None else Some(Canonical(FormatInt(n), n, true))
      case None => Some(Canonical(value, 0, false))
  }

  lemma {:induction false} FewDigits(n: nat, k: nat)
    requires k >= 1 && n < Power(10, k)
    ensures |DigitsOf(n)| <= k
    decreases k
  {
    if n >= 10 {
      FewDigits(n / 10, k - 1);
    }
  }

  lemma ParsedFits(s: string)
    ensures ParseInt(s).Some? ==> MIN_INT64 <= ParseInt(s).value <= MAX_INT64
  {
  }

  lemma MaxDigits(n: nat)
    requires n <= MAX_INT64
    ensures |DigitsOf(n)| <= 20
  {
    assert Power(10, 10) == 1_0000_0000_00;
    assert Power(10, 15) == 1_0000_0000_0000_000;
    assert Power(10, 20) == 1_0000_0000_0000_0000_0000;
    FewDigits(n, 20);
  }

  /** Canonicalising again changes nothing. */
  lemma CanonicalIsFixed(forbidden: char -> bool, value: string)
    requires forall c :: IsDigit(c) ==> !forbidden(c)
    requires CanonicalID(forbidden, value).Some?
    ensures CanonicalID(forbidden, CanonicalID(forbidden, value).value.id) == CanonicalID(forbidden, value)
  {
    var c := CanonicalID(forbidden, value).value;
    if c.numeric {
      ParsedFits(if "usr_" <= value then value[4..] else value);
      FormatParses(c.number);
      MaxDigits(c.number);
      assert c.id == DigitsOf(c.number) && IsDigit(c.id[0]);
    }
  }

  /** What is accepted: no empty, long or spaced identifier, and no number below one; what it is then. */
  lemma CanonicalSays(forbidden: char -> bool, value: string)
    ensures var number := ParseInt(if "usr_" <= value then value[4..] else value);
            match CanonicalID(forbidden, value)
            case None => value == "" || |value| > 256 || (exists c <- value :: forbidden(c))
                         || (number.Some? && number.value <= 0)
            case Some(c) =>
              && 1 <= |value| <= 256 && (forall c <- value :: !forbidden(c))
              && (if number.Some? then c == Canonical(FormatInt(number.value), number.value, true) && c.number >= 1
                  else c == Canonical(value, 0, false))
  {
  }

  /** Every spelling of a number is the same identity, and different numbers are different ones. */
  lemma NumbersAreIdentities(forbidden: char -> bool, a: string, b: string)
    requires CanonicalID(forbidden, a).Some? && CanonicalID(forbidden, b).Some?
    requires CanonicalID(forbidden, a).value.numeric && CanonicalID(forbidden, b).value.numeric
    ensures CanonicalID(forbidden, a).value.id == CanonicalID(forbidden, b).value.id <==>
            ParseInt(if "usr_" <= a then a[4..] else a) == ParseInt(if "usr_" <= b then b[4..] else b)
  {
    var m, n := CanonicalID(forbidden, a).value.number, CanonicalID(forbidden, b).value.number;
    if FormatInt(m) == FormatInt(n) {
      FormatsApart(m, n);
    }
  }

  /** The claims this model looks into; rest stands for the others, which are copied. */
  datatype UserClaims = UserClaims(id: string, subject: string, rest: string)

  /** canonicalUserClaims: the subject defaults to the identifier and must mean the same. */
  function CanonicalUser(forbidden: char -> bool, user: UserClaims): Option<Canonical> {
    match CanonicalID(forbidden, user.id)
    case None => None
    case Some(c) =>
      var subject := if user.subject == "" then c.id else user.subject;
      if CanonicalID(forbidden, subject) == Some(c) then Some(c) else None
  }

  /** Without a subject of its own, every canonical identifier is accepted. */
  lemma DefaultSubjectAgrees(forbidden: char -> bool, user: UserClaims)
    requires (forall c :: IsDigit(c) ==> !forbidden(c)) && user.subject == ""
    ensures CanonicalUser(forbidden, user) == CanonicalID(forbidden, user.id)
  {
    if CanonicalID(forbidden, user.id).Some? {
      CanonicalIsFixed(forbidden, user.id);
    }
  }
}
