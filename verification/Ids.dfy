/**
 * Identifier generators. Each keeps the stamp of its last identifier: a
 * millisecond and a counter. A call is given the readings its clock would return,
 * in order; it returns None while it is still waiting for the clock to move on.
 */
module Ids {
  import opened Options
  import opened Numbers
  import opened Lexicographic

  datatype Stamp = Stamp(ms: nat, count: nat)

  predicate Earlier(a: Stamp, b: Stamp) {
    a.ms < b.ms || (a.ms == b.ms && a.count < b.count)
  }

  /** The spin loop: the first reading after a millisecond. */
  function FirstAfter(clock: seq<nat>, ms: nat): (r: Option<nat>)
    ensures r.Some? ==> r.value in clock && r.value > ms
  {
    if clock == [] then None else if clock[0] > ms then Some(clock[0]) else FirstAfter(clock[1..], ms)
  }

  method SpinPast(clock: seq<nat>, ms: nat) returns (r: Option<nat>)
    ensures r == FirstAfter(clock, ms)
  {
    var i := 0;
    while i < |clock| && clock[i] <= ms
      invariant i <= |clock| && FirstAfter(clock, ms) == FirstAfter(clock[i..], ms)
    {
      assert clock[i..][1..] == clock[i + 1..];
      i := i + 1;
    }
    r := if i < |clock| then Some(clock[i]) else None;
  }

  // ---- UUID version 7 ---------------------------------------------------------------------

  const MAX_48_BITS := 0x1_0000_0000_0000

  /** A later millisecond starts at a random 12-bit count; otherwise the count goes up, waiting when it runs out. */
  function NextUuidStamp(s: Stamp, clock: seq<nat>, random: nat): Option<Stamp>
    requires clock != [] && random < 0x1000
  {
    if clock[0] > s.ms then Some(Stamp(clock[0], random))
    else if s.count + 1 <= 0xfff then Some(Stamp(s.ms, s.count + 1))
    else match FirstAfter(clock[1..], s.ms)
      case None => None
      case Some(ms) => Some(Stamp(ms, random))
  }

  /**
   * Under any clock, even one running backwards, the stamps advance: within a
   * millisecond by one, otherwise to a reading of the clock and a random count,
   * and the clock has moved on or the counts of the millisecond are used up.
   */
  lemma UuidStampAdvances(s: Stamp, clock: seq<nat>, random: nat)
    requires clock != [] && random < 0x1000 && s.count < 0x1000 && NextUuidStamp(s, clock, random).Some?
    ensures var t := NextUuidStamp(s, clock, random).value;
            && Earlier(s, t) && t.count < 0x1000
            && (t.ms == s.ms ==> t.count == s.count + 1 && clock[0] <= s.ms)
            && (t.ms != s.ms ==> t.count == random && t.ms in clock)
            && (t.ms != s.ms ==> t.ms == clock[0] || (s.count == 0xfff && clock[0] <= s.ms))
  {
  }

  /** A call goes on waiting only while the counts are used up and no reading is later. */
  lemma UuidWaits(s: Stamp, clock: seq<nat>, random: nat)
    requires clock != [] && random < 0x1000 && s.count < 0x1000
    ensures NextUuidStamp(s, clock, random).None? <==> s.count == 0xfff && forall ms <- clock :: ms <= s.ms
  {
    NoneAfter(clock, s.ms);
  }

  lemma {:induction false} NoneAfter(clock: seq<nat>, ms: nat)
    ensures FirstAfter(clock, ms).None? <==> forall r <- clock :: r <= ms
  {
    if clock != [] {
      NoneAfter(clock[1..], ms);
      assert clock == [clock[0]] + clock[1..];
    }
  }

  const HEX_DIGITS := "0123456789abcdef"

  function Hex(bytes: seq<Byte>): (s: string)
    ensures |s| == 2 * |bytes|
  {
    if bytes == [] then "" else Hex(bytes[..|bytes| - 1]) + HexByte(bytes[|bytes| - 1])
  }

  function HexByte(b: Byte): (s: string)
    ensures |s| == 2
  {
    [HEX_DIGITS[b / 16], HEX_DIGITS[b % 16]]
  }

  /** "%08x-%04x-%04x-%04x-%012x" */
  function Uuid(buf: seq<Byte>): string
    requires |buf| == 16
  {
    Hex(buf[..4]) + ("-" + (Hex(buf[4..6]) + ("-" + (Hex(buf[6..8]) + UuidTail(buf)))))
  }

  function UuidTail(buf: seq<Byte>): string
    requires |buf| == 16
  {
    "-" + Hex(buf[8..10]) + "-" + Hex(buf[10..])
  }

  /** The first eight bytes: 48 bits of time, the version, and 12 bits of count. */
  function Head(s: Stamp): (r: seq<Byte>)
    requires s.ms < MAX_48_BITS && s.count < 0x1000
    ensures |r| == 8
  {
    Digits(s.ms, 256, 6) + [0x70 + s.count / 256, s.count % 256]
  }

  lemma HexByteOrder(a: Byte, b: Byte)
    requires a < b
    ensures Before(HexByte(a), HexByte(b))
  {
    TwoDigits(a / 16, a % 16, b / 16, b % 16);
  }

  lemma TwoDigits(p: int, r: int, q: int, s: int)
    requires 0 <= p <= q < 16 && 0 <= r < 16 && 0 <= s < 16 && (p == q ==> r < s)
    ensures Before([HEX_DIGITS[p], HEX_DIGITS[r]], [HEX_DIGITS[q], HEX_DIGITS[s]])
  {
    assert FirstDifference([p, r], [q, s], if p < q then 0 else 1);
    WrittenInOrder([p, r], [q, s], HEX_DIGITS, [HEX_DIGITS[p], HEX_DIGITS[r]], [HEX_DIGITS[q], HEX_DIGITS[s]]);
  }

  /** Bytes written one after the other, by any digits of one width. */
  function Spelled(bytes: seq<Byte>, digits: Byte -> string): string {
    if bytes == [] then "" else Spelled(bytes[..|bytes| - 1], digits) + digits(bytes[|bytes| - 1])
  }

  lemma {:induction false} HexSpelled(bytes: seq<Byte>)
    ensures Hex(bytes) == Spelled(bytes, HexByte)
  {
    if bytes != [] {
      HexSpelled(bytes[..|bytes| - 1]);
    }
  }

  lemma {:induction false} SpelledConcat(a: seq<Byte>, b: seq<Byte>, digits: Byte -> string)
    ensures Spelled(a + b, digits) == Spelled(a, digits) + Spelled(b, digits)
    decreases |b|
  {
    if b == [] {
      assert a + b == a;
    } else {
      var n := |b| - 1;
      SpelledConcat(a, b[..n], digits);
      assert (a + b)[..|a| + n] == a + b[..n];
    }
  }

  lemma {:induction false} SpelledOrder(a: seq<Byte>, b: seq<Byte>, digits: Byte -> string)
    requires |a| == |b| && Less(a, b)
    requires forall x: Byte, y: Byte :: |digits(x)| == |digits(y)| && (x < y ==> Before(digits(x), digits(y)))
    ensures Before(Spelled(a, digits), Spelled(b, digits))
    decreases |a|
  {
    var n := |a| - 1;
    ButLast(a, b);
    if Less(a[..n], b[..n]) {
      SpelledOrder(a[..n], b[..n], digits);
    }
    OrderMore(Spelled(a[..n], digits), Spelled(b[..n], digits), digits(a[n]), digits(b[n]));
  }

  lemma OrderMore(s: string, t: string, x: string, y: string)
    requires Before(s, t) || (s == t && Before(x, y))
    ensures Before(s + x, t + y)
  {
    if Before(s, t) {
      BeforeThenAnything(s, t, x, y);
    } else {
      SameThenBefore(s, x, y);
    }
  }

  /** Bytes written in hexadecimal are ordered as the bytes. */
  lemma HexOrder(a: seq<Byte>, b: seq<Byte>)
    requires |a| == |b| && Less(a, b)
    ensures Before(Hex(a), Hex(b))
  {
    HexSpelled(a);
    HexSpelled(b);
    forall x: Byte, y: Byte | x < y ensures Before(HexByte(x), HexByte(y)) {
      HexByteOrder(x, y);
    }
    SpelledOrder(a, b, HexByte);
  }

  /** So are UUID strings, when they differ in their first eight bytes. */
  lemma UuidOrder(a: seq<Byte>, b: seq<Byte>)
    requires |a| == |b| == 16 && Less(a[..8], b[..8])
    ensures Before(Uuid(a), Uuid(b))
  {
    var k :| FirstDifference(a[..8], b[..8], k);
    assert a[0..4] == a[..4] && b[0..4] == b[..4];
    if k < 4 {
      Within(a, b, 0, 4, k);
      UuidFirst(a, b);
    } else if k < 6 {
      Within(a, b, 4, 6, k);
      Agree(a, b, 0, 4, k);
      UuidSecond(a, b);
    } else {
      Within(a, b, 6, 8, k);
      Agree(a, b, 0, 4, k);
      Agree(a, b, 4, 6, k);
      UuidThird(a, b);
    }
  }

  lemma UuidFirst(a: seq<Byte>, b: seq<Byte>)
    requires |a| == |b| == 16 && Before(Hex(a[..4]), Hex(b[..4]))
    ensures Before(Uuid(a), Uuid(b))
  {
    var x := "-" + (Hex(a[4..6]) + ("-" + (Hex(a[6..8]) + UuidTail(a))));
    var y := "-" + (Hex(b[4..6]) + ("-" + (Hex(b[6..8]) + UuidTail(b))));
    BeforeThenAnything(Hex(a[..4]), Hex(b[..4]), x, y);
  }

  lemma UuidSecond(a: seq<Byte>, b: seq<Byte>)
    requires |a| == |b| == 16 && a[..4] == b[..4] && Before(Hex(a[4..6]), Hex(b[4..6]))
    ensures Before(Uuid(a), Uuid(b))
  {
    var x, y := "-" + (Hex(a[6..8]) + UuidTail(a)), "-" + (Hex(b[6..8]) + UuidTail(b));
    BeforeThenAnything(Hex(a[4..6]), Hex(b[4..6]), x, y);
    SameThenBefore("-", Hex(a[4..6]) + x, Hex(b[4..6]) + y);
    SameThenBefore(Hex(a[..4]), "-" + (Hex(a[4..6]) + x), "-" + (Hex(b[4..6]) + y));
  }

  lemma UuidThird(a: seq<Byte>, b: seq<Byte>)
    requires |a| == |b| == 16 && a[..4] == b[..4] && a[4..6] == b[4..6] && Before(Hex(a[6..8]), Hex(b[6..8]))
    ensures Before(Uuid(a), Uuid(b))
  {
    var x, y := Hex(a[6..8]) + UuidTail(a), Hex(b[6..8]) + UuidTail(b);
    BeforeThenAnything(Hex(a[6..8]), Hex(b[6..8]), UuidTail(a), UuidTail(b));
    SameThenBefore("-", x, y);
    SameThenBefore(Hex(a[4..6]), "-" + x, "-" + y);
    SameThenBefore("-", Hex(a[4..6]) + ("-" + x), Hex(b[4..6]) + ("-" + y));
    SameThenBefore(Hex(a[..4]), "-" + (Hex(a[4..6]) + ("-" + x)), "-" + (Hex(b[4..6]) + ("-" + y)));
  }

  lemma Within(a: seq<Byte>, b: seq<Byte>, from: nat, to: nat, k: int)
    requires |a| == |b| == 16 && FirstDifference(a[..8], b[..8], k) && from <= k < to <= 8
    ensures Before(Hex(a[from..to]), Hex(b[from..to]))
  {
    Agree(a, b, from, k, k);
    assert a[from..to][..k - from] == a[from..k] && b[from..to][..k - from] == b[from..k];
    assert FirstDifference(a[from..to], b[from..to], k - from);
    HexOrder(a[from..to], b[from..to]);
  }

  lemma Agree(a: seq<Byte>, b: seq<Byte>, from: nat, to: nat, k: int)
    requires |a| == |b| == 16 && FirstDifference(a[..8], b[..8], k) && from <= to <= k
    ensures a[from..to] == b[from..to]
  {
    forall i | from <= i < to ensures a[i] == b[i] {
      assert a[..8][..k][i] == b[..8][..k][i];
    }
  }

  lemma HeadOrder(s: Stamp, t: Stamp)
    requires s.ms < MAX_48_BITS && t.ms < MAX_48_BITS && s.count < 0x1000 && t.count < 0x1000 && Earlier(s, t)
    ensures Less(Head(s), Head(t))
  {
    if s.ms < t.ms {
      assert Power(256, 6) == MAX_48_BITS;
      DigitsOrder(s.ms, t.ms, 256, 6);
      LessThenAnything(Digits(s.ms, 256, 6), Digits(t.ms, 256, 6),
                       [0x70 + s.count / 256, s.count % 256], [0x70 + t.count / 256, t.count % 256]);
    } else {
      var x, y := [0x70 + s.count / 256, s.count % 256], [0x70 + t.count / 256, t.count % 256];
      assert FirstDifference(x, y, if s.count / 256 < t.count / 256 then 0 else 1);
      SameThenLess(Digits(s.ms, 256, 6), x, y);
    }
  }

  /** Whatever their random tails, UUIDs are ordered as their stamps. */
  lemma UuidsOrdered(s: Stamp, t: Stamp, x: seq<Byte>, y: seq<Byte>)
    requires s.ms < MAX_48_BITS && t.ms < MAX_48_BITS && s.count < 0x1000 && t.count < 0x1000 && Earlier(s, t)
        && |x| == |y| == 8
    ensures Before(Uuid(Head(s) + x), Uuid(Head(t) + y))
  {
    HeadOrder(s, t);
    assert (Head(s) + x)[..8] == Head(s) && (Head(t) + y)[..8] == Head(t);
    UuidOrder(Head(s) + x, Head(t) + y);
  }

  // ---- reading a UUID back -------------------------------------------------------------------

  predicate IsHex(c: char) {
    '0' <= c <= '9' || 'a' <= c <= 'f'
  }

  function HexValue(c: char): (v: nat)
    requires IsHex(c)
    ensures v < 16
  {
    if c <= '9' then c as int - '0' as int else c as int - 'a' as int + 10
  }

  /** The number that hexadecimal digits spell. */
  function HexNumber(s: string): nat
    requires forall i :: 0 <= i < |s| ==> IsHex(s[i])
  {
    if s == "" then 0 else HexNumber(s[..|s| - 1]) * 16 + HexValue(s[|s| - 1])
  }

  lemma HexDigits(n: nat)
    requires n < 16
    ensures IsHex(HEX_DIGITS[n]) && HexValue(HEX_DIGITS[n]) == n
  {
  }

  lemma {:induction false} HexIsHex(bytes: seq<Byte>)
    ensures forall i :: 0 <= i < |Hex(bytes)| ==> IsHex(Hex(bytes)[i])
  {
    if bytes != [] {
      HexIsHex(bytes[..|bytes| - 1]);
      HexDigits(bytes[|bytes| - 1] / 16);
      HexDigits(bytes[|bytes| - 1] % 16);
    }
  }

  /** Hexadecimal spells the number that the bytes do. */
  lemma {:induction false} HexSpells(bytes: seq<Byte>)
    ensures (forall i :: 0 <= i < |Hex(bytes)| ==> IsHex(Hex(bytes)[i]))
    ensures HexNumber(Hex(bytes)) == NumberIn(bytes, 256)
  {
    HexIsHex(bytes);
    if bytes != [] {
      var n := |bytes| - 1;
      HexSpells(bytes[..n]);
      HexMore(Hex(bytes[..n]), bytes[n]);
    }
  }

  lemma HexMore(s: string, b: Byte)
    requires forall i :: 0 <= i < |s| ==> IsHex(s[i])
    ensures forall i :: 0 <= i < |s + HexByte(b)| ==> IsHex((s + HexByte(b))[i])
    ensures HexNumber(s + HexByte(b)) == HexNumber(s) * 256 + b
  {
    HexDigits(b / 16);
    HexDigits(b % 16);
    var all := s + HexByte(b);
    assert all[..|all| - 1] == s + [HEX_DIGITS[b / 16]];
    assert (s + [HEX_DIGITS[b / 16]])[..|s|] == s;
  }

  lemma HexConcat(a: seq<Byte>, b: seq<Byte>)
    ensures Hex(a + b) == Hex(a) + Hex(b)
  {
    HexSpelled(a);
    HexSpelled(b);
    HexSpelled(a + b);
    SpelledConcat(a, b, HexByte);
  }

  /** The text of a UUID in groups of eight, four, four, four and twelve digits. */
  lemma UuidGroups(buf: seq<Byte>)
    requires |buf| == 16
    ensures |Uuid(buf)| == 36
    ensures Uuid(buf)[..8] == Hex(buf[..4]) && Uuid(buf)[9..13] == Hex(buf[4..6])
    ensures Uuid(buf)[14..18] == Hex(buf[6..8]) && Uuid(buf)[19..23] == Hex(buf[8..10])
    ensures Uuid(buf)[24..] == Hex(buf[10..])
    ensures Uuid(buf)[8] == Uuid(buf)[13] == Uuid(buf)[18] == Uuid(buf)[23] == '-'
  {
  }

  /**
   * Section 5.7 of RFC 9562: twelve digits of time, the version, three digits of
   * count, and the variant.
   */
  lemma UuidReads(s: Stamp, tail: seq<Byte>)
    requires Encodable(s, tail) && 0x80 <= tail[0] < 0xc0
    ensures var id := Uuid(Head(s) + tail);
            && |id| == 36 && id[14] == '7' && id[19] in "89ab"
            && (forall i :: 0 <= i < 12 ==> IsHex((id[..8] + id[9..13])[i])) && HexNumber(id[..8] + id[9..13]) == s.ms
            && (forall i :: 0 <= i < 3 ==> IsHex(id[15..18][i])) && HexNumber(id[15..18]) == s.count
  {
    var buf := Head(s) + tail;
    UuidGroups(buf);
    TimeReads(s.ms, buf[..4], buf[4..6]);
    CountReads(s.count, buf[6..8]);
    VariantReads(buf[8..10]);
    var id := Uuid(buf);
    assert id[14] == id[14..18][0] && id[15..18] == id[14..18][1..] && id[19] == id[19..23][0];
  }

  lemma TimeReads(ms: nat, high: seq<Byte>, low: seq<Byte>)
    requires ms < MAX_48_BITS && high + low == Digits(ms, 256, 6)
    ensures var s := Hex(high) + Hex(low);
            (forall i :: 0 <= i < |s| ==> IsHex(s[i])) && HexNumber(s) == ms
  {
    HexConcat(high, low);
    HexSpells(high + low);
    assert Power(256, 6) == MAX_48_BITS;
    DigitsSpell(ms, 256, 6);
  }

  lemma CountReads(count: nat, bytes: seq<Byte>)
    requires count < 0x1000 && bytes == [0x70 + count / 256, count % 256]
    ensures Hex(bytes)[0] == '7' && (forall i :: 0 <= i < 3 ==> IsHex(Hex(bytes)[1..][i]))
    ensures HexNumber(Hex(bytes)[1..]) == count
  {
    var high, low := count / 256, count % 256;
    assert bytes[..1] == [bytes[0]] && bytes[..1][..0] == [];
    assert Hex(bytes[..1]) == HexByte(bytes[0]);
    assert Hex(bytes) == HexByte(bytes[0]) + HexByte(low);
    assert HEX_DIGITS[7] == '7' && HexByte(bytes[0])[1] == HEX_DIGITS[high];
    HexDigits(high);
    assert Hex(bytes)[1..] == [HEX_DIGITS[high]] + HexByte(low);
    HexMore([HEX_DIGITS[high]], low);
    assert [HEX_DIGITS[high]][..0] == "";
  }

  lemma VariantReads(bytes: seq<Byte>)
    requires |bytes| == 2 && 0x80 <= bytes[0] < 0xc0
    ensures Hex(bytes)[0] in "89ab"
  {
    assert bytes[..1] == [bytes[0]] && bytes[..1][..0] == [];
    assert Hex(bytes[..1]) == HexByte(bytes[0]);
    assert Hex(bytes)[0] == HEX_DIGITS[bytes[0] / 16] && 8 <= bytes[0] / 16 < 12;
    assert "89ab"[0] == HEX_DIGITS[8] && "89ab"[1] == HEX_DIGITS[9];
    assert "89ab"[2] == HEX_DIGITS[10] && "89ab"[3] == HEX_DIGITS[11];
  }

  lemma SixBytes(ms: nat)
    requires ms < MAX_48_BITS
    ensures Digits(ms, 256, 6) == [ms / 0x100_0000_0000 % 256, ms / 0x1_0000_0000 % 256, ms / 0x100_0000 % 256,
                                   ms / 0x1_0000 % 256, ms / 0x100 % 256, ms % 256]
  {
    var a := ms / 256;
    var b := a / 256;
    var c := b / 256;
    var d := c / 256;
    var e := d / 256;
    assert b == ms / 0x1_0000 && c == ms / 0x100_0000 && d == ms / 0x1_0000_0000 && e == ms / 0x100_0000_0000;
    assert Digits(e, 256, 1) == [e % 256];
    assert Digits(d, 256, 2) == [e % 256, d % 256];
    assert Digits(c, 256, 3) == [e % 256, d % 256, c % 256];
    assert Digits(b, 256, 4) == [e % 256, d % 256, c % 256, b % 256];
    assert Digits(a, 256, 5) == [e % 256, d % 256, c % 256, b % 256, a % 256];
  }

  /** The twelve random bits a later millisecond starts from. */
  function Low12(random: seq<Byte>): (r: nat)
    requires |random| == 16
    ensures r < 0x1000
  {
    (random[6] as int * 256 + random[7] as int) % 0x1000
  }

  /** The last eight bytes: the variant and random bits. */
  function Tail(random: seq<Byte>): (r: seq<Byte>)
    requires |random| == 16
    ensures |r| == 8
  {
    [random[8] as int % 0x40 + 0x80] + random[9..]
  }

  ghost predicate Encodable(s: Stamp, tail: seq<Byte>) {
    s.ms < MAX_48_BITS && s.count < 0x1000 && |tail| == 8
  }

  /** Identifiers issued with advancing stamps, none after the last. */
  ghost predicate Recorded(issued: seq<(Stamp, seq<Byte>)>, last: Stamp) {
    && (forall i :: 0 <= i < |issued| ==>
          Encodable(issued[i].0, issued[i].1) && (issued[i].0 == last || Earlier(issued[i].0, last)))
    && forall i, j :: 0 <= i < j < |issued| ==> Earlier(issued[i].0, issued[j].0)
  }

  ghost predicate AllBefore(issued: seq<(Stamp, seq<Byte>)>, id: string) {
    forall i :: 0 <= i < |issued| && Encodable(issued[i].0, issued[i].1) ==>
      Before(Uuid(Head(issued[i].0) + issued[i].1), id)
  }

  lemma RecordMore(issued: seq<(Stamp, seq<Byte>)>, last: Stamp, next: Stamp, tail: seq<Byte>)
    requires Recorded(issued, last) && Earlier(last, next) && Encodable(next, tail)
    ensures Recorded(issued + [(next, tail)], next)
  {
  }

  lemma ComesLast(issued: seq<(Stamp, seq<Byte>)>, last: Stamp, next: Stamp, tail: seq<Byte>)
    requires Recorded(issued, last) && Earlier(last, next) && Encodable(next, tail)
    ensures AllBefore(issued, Uuid(Head(next) + tail))
  {
    forall i | 0 <= i < |issued| ensures Before(Uuid(Head(issued[i].0) + issued[i].1), Uuid(Head(next) + tail)) {
      UuidsOrdered(issued[i].0, next, issued[i].1, tail);
    }
  }

  class UuidGenerator {
    var lastMs: nat
    var sequence: nat
    ghost var issued: seq<(Stamp, seq<Byte>)>

    ghost predicate Valid()
      reads this
    {
      lastMs < MAX_48_BITS && sequence < 0x1000 && Recorded(issued, Stamp(lastMs, sequence))
    }

    constructor ()
      ensures Valid() && issued == []
    {
      lastMs, sequence, issued := 0, 0, [];
    }

    /** A new identifier comes after every identifier issued before. */
    method Next(clock: seq<nat>, random: seq<Byte>) returns (id: Option<string>)
      requires Valid() && clock != [] && |random| == 16 && forall ms <- clock :: ms < MAX_48_BITS
      modifies this
      ensures id.None? ==> NextUuidStamp(old(Stamp(lastMs, sequence)), clock, Low12(random)).None?
      ensures id.Some? ==>
        && Valid()
        && NextUuidStamp(old(Stamp(lastMs, sequence)), clock, Low12(random)) == Some(Stamp(lastMs, sequence))
        && issued == old(issued) + [(Stamp(lastMs, sequence), Tail(random))]
        && id.value == Uuid(Head(Stamp(lastMs, sequence)) + Tail(random))
        && AllBefore(old(issued), id.value)
    {
      ghost var before := Stamp(lastMs, sequence);
      var nowMs := clock[0];
      var start := Low12(random);
      if nowMs <= lastMs {
        nowMs := lastMs;
        sequence := sequence + 1;
        if sequence > 0xfff {
          var later := SpinPast(clock[1..], lastMs);
          if later.None? {
            return None;
          }
          nowMs := later.value;
          sequence := start;
        }
      } else {
        sequence := start;
      }
      lastMs := nowMs;
      ghost var stamp, tail := Stamp(lastMs, sequence), Tail(random);
      assert NextUuidStamp(before, clock, start) == Some(stamp);
      UuidStampAdvances(before, clock, start);
      var buf := Layout(nowMs, sequence, random);
      RecordMore(issued, before, stamp, tail);
      ComesLast(issued, before, stamp, tail);
      issued := issued + [(stamp, tail)];
      id := Some(Uuid(buf));
    }

    /** The sixteen bytes: the random ones, with time, version, count and variant written over them. */
    method Layout(nowMs: nat, count: nat, random: seq<Byte>) returns (bytes: seq<Byte>)
      requires nowMs < MAX_48_BITS && count < 0x1000 && |random| == 16
      ensures bytes == Head(Stamp(nowMs, count)) + Tail(random)
    {
      var buf := new Byte[16](i requires 0 <= i < 16 => random[i]);
      StoreTime(buf, nowMs);
      buf[6] := count / 256 + 0x70;
      buf[7] := count % 256;
      buf[8] := buf[8] as int % 0x40 + 0x80;
      bytes := buf[..];
      assert bytes[..6] == Digits(nowMs, 256, 6) && bytes[9..] == random[9..];
      assert bytes == bytes[..6] + [bytes[6], bytes[7], bytes[8]] + bytes[9..];
    }

    method StoreTime(buf: array<Byte>, ms: nat)
      requires buf.Length == 16 && ms < MAX_48_BITS
      modifies buf
      ensures buf[..6] == Digits(ms, 256, 6) && forall k :: 6 <= k < 16 ==> buf[k] == old(buf[k])
    {
      buf[0] := ms / 0x100_0000_0000 % 256;
      buf[1] := ms / 0x1_0000_0000 % 256;
      buf[2] := ms / 0x100_0000 % 256;
      buf[3] := ms / 0x1_0000 % 256;
      buf[4] := ms / 0x100 % 256;
      buf[5] := ms % 256;
      SixBytes(ms);
    }
  }

  // ---- Snowflake --------------------------------------------------------------------------

  const EPOCH := 1704067200000
  const MAX_NODE := 1023
  const MAX_41_BITS := 0x200_0000_0000

  function NextFlakeStamp(s: Stamp, clock: seq<nat>): Option<Stamp>
    requires clock != []
  {
    if clock[0] != s.ms then Some(Stamp(clock[0], 0))
    else if (s.count + 1) % 4096 != 0 then Some(Stamp(s.ms, (s.count + 1) % 4096))
    else match FirstAfter(clock[1..], s.ms)
      case None => None
      case Some(ms) => Some(Stamp(ms, 0))
  }

  /** Conversion to a signed 64-bit integer. */
  function Int64(n: int): int {
    (n + 0x8000_0000_0000_0000) % 0x1_0000_0000_0000_0000 - 0x8000_0000_0000_0000
  }

  /** The fields of an identifier do not overlap, so or-ing them adds them; the shifted time may wrap around. */
  function Flake(node: nat, s: Stamp): int {
    Int64((s.ms - EPOCH) * 0x40_0000 + node * 0x1000 + s.count)
  }

  /** The time since the epoch fits 41 bits, or is before it. */
  predicate InTime(s: Stamp) {
    s.ms < EPOCH + MAX_41_BITS
  }

  lemma FlakeFits(node: nat, s: Stamp)
    requires node <= MAX_NODE && s.count < 4096 && InTime(s)
    ensures Flake(node, s) == (s.ms - EPOCH) * 0x40_0000 + node * 0x1000 + s.count
  {
  }

  /**
   * Within a millisecond the number counts up by one, below 4096; otherwise it starts at
   * zero, at the clock's reading, or at a later one when all numbers were used up.
   */
  lemma FlakeStampSays(s: Stamp, clock: seq<nat>)
    requires clock != [] && s.count < 4096 && NextFlakeStamp(s, clock).Some?
    ensures var t := NextFlakeStamp(s, clock).value;
            && (t.ms == s.ms ==> t.count == s.count + 1 < 4096 && clock[0] == s.ms)
            && (t.ms != s.ms ==> t.count == 0)
            && (t.ms != s.ms ==> t.ms == clock[0] || (clock[0] == s.ms && s.count == 4095 && t.ms in clock))
  {
  }

  /** An identifier is larger than the one before exactly when the clock has not gone backwards. */
  lemma FlakeAdvances(node: nat, s: Stamp, clock: seq<nat>)
    requires node <= MAX_NODE && s.count < 4096 && clock != [] && NextFlakeStamp(s, clock).Some?
    requires InTime(s) && InTime(NextFlakeStamp(s, clock).value)
    ensures Flake(node, s) < Flake(node, NextFlakeStamp(s, clock).value) <==> s.ms <= clock[0]
    ensures NextFlakeStamp(s, clock).value.count < 4096
  {
    FlakeFits(node, s);
    FlakeFits(node, NextFlakeStamp(s, clock).value);
  }

  /** A clock that goes back can repeat an identifier. */
  lemma FlakeRepeats(node: nat, ms: nat)
    ensures var first := NextFlakeStamp(Stamp(0, 0), [ms + 1]).value;
            var second := NextFlakeStamp(first, [ms + 2]);
            second.Some? && NextFlakeStamp(second.value, [ms + 1]) == Some(first)
  {
  }

  lemma FlakeFields(node: nat, s: Stamp)
    requires node <= MAX_NODE && s.count < 4096 && InTime(s)
    ensures Flake(node, s) / 0x1000 == (s.ms - EPOCH) * 1024 + node && Flake(node, s) % 0x1000 == s.count
    ensures Flake(node, s) / 0x1000 / 1024 == s.ms - EPOCH && Flake(node, s) / 0x1000 % 1024 == node
  {
    FlakeFits(node, s);
  }

  /** Identifiers in time are equal only in all their fields. */
  lemma NodesNeverCollide(a: nat, b: nat, s: Stamp, t: Stamp)
    requires a <= MAX_NODE && b <= MAX_NODE && s.count < 4096 && t.count < 4096 && InTime(s) && InTime(t)
    ensures Flake(a, s) == Flake(b, t) <==> a == b && s == t
    ensures s.ms >= EPOCH ==> 0 <= Flake(a, s) < 0x8000_0000_0000_0000
  {
    FlakeFields(a, s);
    FlakeFields(b, t);
    FlakeFits(a, s);
  }

  /** The stamps of a node from its start, and the clock readings each call was given. */
  ghost predicate FlakeHistory(stamps: seq<Stamp>, clocks: seq<seq<nat>>) {
    && |stamps| == |clocks| + 1 && stamps[0] == Stamp(0, 0)
    && forall i :: 0 <= i < |clocks| ==> FlakeCall(stamps[i], clocks[i], stamps[i + 1])
  }

  ghost predicate FlakeCall(s: Stamp, clock: seq<nat>, t: Stamp) {
    clock != [] && NextFlakeStamp(s, clock) == Some(t)
  }

  lemma {:induction false} FlakeCounts(stamps: seq<Stamp>, clocks: seq<seq<nat>>, i: nat)
    requires FlakeHistory(stamps, clocks) && i < |stamps|
    ensures stamps[i].count < 4096
  {
    if i > 0 {
      FlakeCounts(stamps, clocks, i - 1);
      assert FlakeCall(stamps[i - 1], clocks[i - 1], stamps[i]);
    }
  }

  /** No call but the first found the clock before the stamp of the call before it. */
  ghost predicate NeverBack(stamps: seq<Stamp>, clocks: seq<seq<nat>>)
    requires FlakeHistory(stamps, clocks)
  {
    forall i :: 1 <= i < |clocks| ==> clocks[i] != [] && stamps[i].ms <= clocks[i][0]
  }

  ghost predicate FlakesAscend(node: nat, stamps: seq<Stamp>) {
    forall i, j :: 1 <= i < j < |stamps| ==> Flake(node, stamps[i]) < Flake(node, stamps[j])
  }

  lemma {:induction false} FlakesInOrder(node: nat, stamps: seq<Stamp>, clocks: seq<seq<nat>>, i: nat, j: nat)
    requires node <= MAX_NODE && FlakeHistory(stamps, clocks) && NeverBack(stamps, clocks) && 1 <= i < j < |stamps|
    requires forall s <- stamps :: InTime(s)
    ensures Flake(node, stamps[i]) < Flake(node, stamps[j])
  {
    FlakeCounts(stamps, clocks, j - 1);
    assert InTime(stamps[j - 1]) && InTime(stamps[j]);
    assert FlakeCall(stamps[j - 1], clocks[j - 1], stamps[j]);
    FlakeAdvances(node, stamps[j - 1], clocks[j - 1]);
    if i < j - 1 {
      FlakesInOrder(node, stamps, clocks, i, j - 1);
    }
  }

  /**
   * Over a node's whole history, while the time fits 41 bits, its identifiers
   * strictly increase exactly when its clock never went back.
   */
  lemma FlakesAscendExactly(node: nat, stamps: seq<Stamp>, clocks: seq<seq<nat>>)
    requires node <= MAX_NODE && FlakeHistory(stamps, clocks) && forall s <- stamps :: InTime(s)
    ensures FlakesAscend(node, stamps) <==> NeverBack(stamps, clocks)
  {
    if NeverBack(stamps, clocks) {
      forall i, j | 1 <= i < j < |stamps| ensures Flake(node, stamps[i]) < Flake(node, stamps[j]) {
        FlakesInOrder(node, stamps, clocks, i, j);
      }
    }
    if FlakesAscend(node, stamps) {
      forall i | 1 <= i < |clocks|
        ensures clocks[i] != [] && stamps[i].ms <= clocks[i][0]
      {
        assert FlakeCall(stamps[i], clocks[i], stamps[i + 1]);
        assert InTime(stamps[i]) && InTime(stamps[i + 1]);
        FlakeCounts(stamps, clocks, i);
        FlakeAdvances(node, stamps[i], clocks[i]);
      }
    }
  }

  // ---- when a node's identifiers repeat --------------------------------------------------

  ghost predicate FlakesDistinct(node: nat, stamps: seq<Stamp>) {
    forall i, j :: 1 <= i < j < |stamps| ==> Flake(node, stamps[i]) != Flake(node, stamps[j])
  }

  /** No millisecond is left and come back to. */
  ghost predicate NoReturn(stamps: seq<Stamp>) {
    forall i, k, j :: 1 <= i < k < j < |stamps| && stamps[i].ms == stamps[j].ms ==> stamps[k].ms == stamps[i].ms
  }

  ghost predicate Stays(stamps: seq<Stamp>, i: nat, j: nat)
    requires i <= j < |stamps|
  {
    forall k :: i <= k <= j ==> stamps[k].ms == stamps[i].ms
  }

  /** Within one stay the sequence number counts up. */
  lemma {:induction false} StayCounts(stamps: seq<Stamp>, clocks: seq<seq<nat>>, i: nat, j: nat)
    requires FlakeHistory(stamps, clocks) && i <= j < |stamps| && Stays(stamps, i, j)
    ensures stamps[j].count == stamps[i].count + (j - i)
    decreases j
  {
    if i < j {
      assert FlakeCall(stamps[j - 1], clocks[j - 1], stamps[j]);
      FlakeCounts(stamps, clocks, j - 1);
      StayCounts(stamps, clocks, i, j - 1);
    }
  }

  /** The first identifier of a stay has sequence number zero. */
  lemma StayOpens(stamps: seq<Stamp>, clocks: seq<seq<nat>>, i: nat)
    requires FlakeHistory(stamps, clocks) && 1 <= i < |stamps| && stamps[i - 1].ms != stamps[i].ms
    ensures stamps[i].count == 0
  {
    assert FlakeCall(stamps[i - 1], clocks[i - 1], stamps[i]);
  }

  /** Where the stay that i belongs to began, at or after from, where another millisecond was. */
  lemma {:induction false} Began(stamps: seq<Stamp>, from: nat, i: nat) returns (first: nat)
    requires from < i < |stamps| && stamps[from].ms != stamps[i].ms
    ensures from < first <= i && stamps[first].ms == stamps[i].ms && stamps[first - 1].ms != stamps[first].ms
    decreases i
  {
    if stamps[i - 1].ms != stamps[i].ms {
      first := i;
    } else {
      first := Began(stamps, from, i - 1);
    }
  }

  lemma ReturnRepeats(node: nat, stamps: seq<Stamp>, clocks: seq<seq<nat>>, i: nat, k: nat, j: nat)
    requires FlakeHistory(stamps, clocks) && 1 <= i < k < j < |stamps| && stamps[1].ms > 0
    requires stamps[i].ms == stamps[j].ms != stamps[k].ms
    ensures !FlakesDistinct(node, stamps)
  {
    var again := Began(stamps, k, j);
    var first := Began(stamps, if stamps[i].ms > 0 then 0 else 1, i);
    StayOpens(stamps, clocks, first);
    StayOpens(stamps, clocks, again);
    assert stamps[first] == stamps[again];
  }

  /**
   * Over the whole history of a node whose clock starts after 1970, while the time
   * fits 41 bits, its identifiers are all distinct exactly when its clock never
   * makes it return to a millisecond it has left. Going back to a millisecond it
   * has not used does no harm.
   */
  lemma FlakesDistinctExactly(node: nat, stamps: seq<Stamp>, clocks: seq<seq<nat>>)
    requires node <= MAX_NODE && FlakeHistory(stamps, clocks) && forall s <- stamps :: InTime(s)
    requires |stamps| > 1 ==> stamps[1].ms > 0
    ensures FlakesDistinct(node, stamps) <==> NoReturn(stamps)
  {
    if NoReturn(stamps) {
      forall i, j | 1 <= i < j < |stamps| ensures Flake(node, stamps[i]) != Flake(node, stamps[j]) {
        assert InTime(stamps[i]) && InTime(stamps[j]);
        FlakeCounts(stamps, clocks, i);
        FlakeCounts(stamps, clocks, j);
        NodesNeverCollide(node, node, stamps[i], stamps[j]);
        if stamps[i].ms == stamps[j].ms {
          StayCounts(stamps, clocks, i, j);
        }
      }
    } else {
      var i, k, j :| 1 <= i < k < j < |stamps| && stamps[i].ms == stamps[j].ms && stamps[k].ms != stamps[i].ms;
      ReturnRepeats(node, stamps, clocks, i, k, j);
    }
  }

  /** A clock that goes back without returning: nothing repeats. */
  lemma BackIsNotRepeat(node: nat)
    requires node <= MAX_NODE
    ensures var stamps, clocks := [Stamp(0, 0), Stamp(10, 0), Stamp(12, 0), Stamp(11, 0)], [[10], [12], [11]];
            FlakeHistory(stamps, clocks) && !NeverBack(stamps, clocks) && FlakesDistinct(node, stamps)
  {
    var stamps, clocks := [Stamp(0, 0), Stamp(10, 0), Stamp(12, 0), Stamp(11, 0)], [[10], [12], [11]];
    assert FlakeHistory(stamps, clocks);
    FlakesDistinctExactly(node, stamps, clocks);
    assert clocks[2][0] < stamps[2].ms;
  }

  class SnowflakeNode {
    const nodeID: nat
    var lastMs: nat
    var sequence: nat
    ghost var stamps: seq<Stamp>
    ghost var clocks: seq<seq<nat>>

    ghost predicate Valid()
      reads this
    {
      && nodeID <= MAX_NODE && sequence < 4096 && FlakeHistory(stamps, clocks)
      && stamps[|stamps| - 1] == Stamp(lastMs, sequence)
    }

    constructor (nodeID: nat)
      requires nodeID <= MAX_NODE
      ensures Valid() && this.nodeID == nodeID && clocks == []
    {
      this.nodeID := nodeID;
      lastMs, sequence := 0, 0;
      stamps, clocks := [Stamp(0, 0)], [];
    }

    method NextID(clock: seq<nat>) returns (id: Option<int>)
      requires Valid() && clock != []
      modifies this
      ensures match NextFlakeStamp(old(Stamp(lastMs, sequence)), clock)
              case None => id.None?
              case Some(stamp) =>
                && Valid() && Stamp(lastMs, sequence) == stamp && id == Some(Flake(nodeID, stamp))
                && stamps == old(stamps) + [stamp] && clocks == old(clocks) + [clock]
    {
      var nowMs := clock[0];
      if nowMs == lastMs {
        sequence := (sequence + 1) % 4096;
        if sequence == 0 {
          var later := SpinPast(clock[1..], lastMs);
          if later.None? {
            return None;
          }
          nowMs := later.value;
        }
      } else {
        sequence := 0;
      }
      lastMs := nowMs;
      id := Some(Int64((nowMs - EPOCH) * 0x40_0000 + nodeID * 0x1000 + sequence));
      assert FlakeCall(stamps[|stamps| - 1], clock, Stamp(lastMs, sequence));
      stamps, clocks := stamps + [Stamp(lastMs, sequence)], clocks + [clock];
    }
  }

  // ---- ULID ---------------------------------------------------------------------------

  const CROCKFORD := "0123456789ABCDEFGHJKMNPQRSTVWXYZ"

  const MAX_64_BITS := 0x1_0000_0000_0000_0000

  /** The counter is a 64-bit unsigned integer. */
  function NextUlidStamp(s: Stamp, nowMs: nat, random: nat): Stamp {
    if nowMs == s.ms then Stamp(s.ms, (s.count + 1) % MAX_64_BITS) else Stamp(nowMs, random)
  }

  function Base32(n: nat, k: nat): (s: string)
    ensures |s| == k
  {
    var d := Digits(n, 32, k);
    seq(k, i requires 0 <= i < k => CROCKFORD[d[i]])
  }

  /** Ten digits of time, sixteen of entropy. */
  function Ulid(s: Stamp): (r: string)
    ensures |r| == 26
  {
    Base32(s.ms, 10) + Base32(s.count, 16)
  }

  lemma CrockfordAscends(i: nat, j: nat)
    requires i < j < 32
    ensures CROCKFORD[i] < CROCKFORD[j]
  {
  }

  lemma Base32Order(n: nat, m: nat, k: nat)
    requires n < m < Power(32, k)
    ensures Before(Base32(n, k), Base32(m, k))
  {
    DigitsOrder(n, m, 32, k);
    assert forall i, j :: 0 <= i < j < |CROCKFORD| ==> CROCKFORD[i] < CROCKFORD[j] by {
      forall i, j | 0 <= i < j < |CROCKFORD| ensures CROCKFORD[i] < CROCKFORD[j] {
        CrockfordAscends(i, j);
      }
    }
    WrittenInOrder(Digits(n, 32, k), Digits(m, 32, k), CROCKFORD, Base32(n, k), Base32(m, k));
  }

  /** The time is the clock's; the entropy is fresh in a new millisecond and counts up within one. */
  lemma UlidStampSays(s: Stamp, nowMs: nat, random: nat)
    ensures var t := NextUlidStamp(s, nowMs, random);
            && t.ms == nowMs && (nowMs != s.ms ==> t.count == random)
            && (nowMs == s.ms ==> t.count == if s.count + 1 == MAX_64_BITS then 0 else (s.count + 1) % MAX_64_BITS)
  {
  }

  /** These characters spell the number in the alphabet of ULIDs. */
  ghost predicate SpellsInBase32(s: string, n: nat) {
    exists d: seq<int> :: |d| == |s| && NumberIn(d, 32) == n
      && forall i :: 0 <= i < |s| ==> 0 <= d[i] < 32 && s[i] == CROCKFORD[d[i]]
  }

  /** Ten characters spell the time and sixteen the entropy. */
  lemma UlidReads(s: Stamp)
    requires s.ms < MAX_48_BITS && s.count < MAX_64_BITS
    ensures |Ulid(s)| == 26 && SpellsInBase32(Ulid(s)[..10], s.ms) && SpellsInBase32(Ulid(s)[10..], s.count)
  {
    assert Power(32, 8) == 0x100_0000_0000;
    assert Power(32, 10) == 0x4_0000_0000_0000;
    assert Power(32, 16) >= MAX_64_BITS;
    DigitsSpell(s.ms, 32, 10);
    DigitsSpell(s.count, 32, 16);
    assert Ulid(s)[..10] == Base32(s.ms, 10) && Ulid(s)[10..] == Base32(s.count, 16);
    SpelledBy(Base32(s.ms, 10), Digits(s.ms, 32, 10), s.ms);
    SpelledBy(Base32(s.count, 16), Digits(s.count, 32, 16), s.count);
  }

  lemma SpelledBy(s: string, d: seq<int>, n: nat)
    requires |d| == |s| && NumberIn(d, 32) == n
    requires forall i :: 0 <= i < |s| ==> 0 <= d[i] < 32 && s[i] == CROCKFORD[d[i]]
    ensures SpellsInBase32(s, n)
  {
  }

  lemma UlidOrder(s: Stamp, t: Stamp)
    requires Earlier(s, t) && t.ms < MAX_48_BITS && t.count < MAX_64_BITS
    ensures Before(Ulid(s), Ulid(t))
  {
    if s.ms < t.ms {
      assert Power(32, 10) == 0x4_0000_0000_0000;
      Base32Order(s.ms, t.ms, 10);
      BeforeThenAnything(Base32(s.ms, 10), Base32(t.ms, 10), Base32(s.count, 16), Base32(t.count, 16));
    } else {
      assert Power(32, 8) == 0x100_0000_0000;
      assert Power(32, 16) >= 0x1_0000_0000_0000_0000;
      Base32Order(s.count, t.count, 16);
      SameThenBefore(Base32(s.ms, 10), Base32(s.count, 16), Base32(t.count, 16));
    }
  }

  /** The clock has not gone back since the stamp, and its counter can still count. */
  predicate GoesOn(s: Stamp, nowMs: nat) {
    s.ms < nowMs || (s.ms == nowMs && s.count + 1 < MAX_64_BITS)
  }

  /** A ULID comes after the one before exactly when the clock has not gone back and the counter has not wrapped. */
  lemma UlidAdvances(s: Stamp, nowMs: nat, random: nat)
    requires s.ms < MAX_48_BITS && nowMs < MAX_48_BITS && random < MAX_48_BITS && s.count < MAX_64_BITS
    ensures Before(Ulid(s), Ulid(NextUlidStamp(s, nowMs, random))) <==> GoesOn(s, nowMs)
    ensures Earlier(s, NextUlidStamp(s, nowMs, random)) <==> GoesOn(s, nowMs)
  {
    var t := NextUlidStamp(s, nowMs, random);
    if GoesOn(s, nowMs) {
      UlidOrder(s, t);
    } else {
      UlidOrder(t, s);
      LessIsStrict(Codes(Ulid(t)), Codes(Ulid(s)));
    }
  }

  /** The stamps of the generator from its start, and what each call read from the clock and drew at random. */
  ghost predicate UlidHistory(stamps: seq<Stamp>, times: seq<nat>, randoms: seq<nat>) {
    && |stamps| == |times| + 1 == |randoms| + 1 && stamps[0] == Stamp(0, 0)
    && forall i :: 0 <= i < |times| ==> UlidCall(stamps[i], times[i], randoms[i], stamps[i + 1])
  }

  ghost predicate UlidCall(s: Stamp, time: nat, random: nat, t: Stamp) {
    time < MAX_48_BITS && random < MAX_48_BITS && t == NextUlidStamp(s, time, random)
  }

  lemma UlidExtends(stamps: seq<Stamp>, times: seq<nat>, randoms: seq<nat>, time: nat, random: nat, t: Stamp)
    requires UlidHistory(stamps, times, randoms) && UlidCall(stamps[|stamps| - 1], time, random, t)
    ensures UlidHistory(stamps + [t], times + [time], randoms + [random])
  {
  }

  lemma {:induction false} UlidBounds(stamps: seq<Stamp>, times: seq<nat>, randoms: seq<nat>, i: nat)
    requires UlidHistory(stamps, times, randoms) && i < |stamps|
    ensures stamps[i].ms < MAX_48_BITS && stamps[i].count < MAX_64_BITS
  {
    if i > 0 {
      UlidBounds(stamps, times, randoms, i - 1);
      assert UlidCall(stamps[i - 1], times[i - 1], randoms[i - 1], stamps[i]);
    }
  }

  ghost predicate AlwaysGoesOn(stamps: seq<Stamp>, times: seq<nat>)
    requires |stamps| == |times| + 1
  {
    forall i :: 1 <= i < |times| ==> GoesOn(stamps[i], times[i])
  }

  ghost predicate UlidsAscend(stamps: seq<Stamp>) {
    forall i, j :: 1 <= i < j < |stamps| ==> Before(Ulid(stamps[i]), Ulid(stamps[j]))
  }

  lemma {:induction false} StampsInOrder(stamps: seq<Stamp>, times: seq<nat>, randoms: seq<nat>, i: nat, j: nat)
    requires UlidHistory(stamps, times, randoms) && AlwaysGoesOn(stamps, times) && 1 <= i < j < |stamps|
    ensures Earlier(stamps[i], stamps[j])
  {
    UlidBounds(stamps, times, randoms, j - 1);
    assert UlidCall(stamps[j - 1], times[j - 1], randoms[j - 1], stamps[j]);
    UlidAdvances(stamps[j - 1], times[j - 1], randoms[j - 1]);
    if i < j - 1 {
      StampsInOrder(stamps, times, randoms, i, j - 1);
    }
  }

  /**
   * Over the whole history ULIDs strictly ascend exactly when the clock never went back and the
   * counter never wrapped.
   */
  lemma UlidsAscendExactly(stamps: seq<Stamp>, times: seq<nat>, randoms: seq<nat>)
    requires UlidHistory(stamps, times, randoms)
    ensures UlidsAscend(stamps) <==> AlwaysGoesOn(stamps, times)
  {
    if AlwaysGoesOn(stamps, times) {
      forall i, j | 1 <= i < j < |stamps| ensures Before(Ulid(stamps[i]), Ulid(stamps[j])) {
        StampsInOrder(stamps, times, randoms, i, j);
        UlidBounds(stamps, times, randoms, j);
        UlidOrder(stamps[i], stamps[j]);
      }
    }
    if UlidsAscend(stamps) {
      forall i | 1 <= i < |times| ensures GoesOn(stamps[i], times[i]) {
        UlidBounds(stamps, times, randoms, i);
        assert UlidCall(stamps[i], times[i], randoms[i], stamps[i + 1]);
        UlidAdvances(stamps[i], times[i], randoms[i]);
      }
    }
  }

  class UlidGenerator {
    var lastMs: nat
    var entropy: nat
    ghost var stamps: seq<Stamp>
    ghost var times: seq<nat>
    ghost var randoms: seq<nat>

    ghost predicate Valid()
      reads this
    {
      UlidHistory(stamps, times, randoms) && stamps[|stamps| - 1] == Stamp(lastMs, entropy)
    }

    constructor ()
      ensures Valid() && times == []
    {
      lastMs, entropy := 0, 0;
      stamps, times, randoms := [Stamp(0, 0)], [], [];
    }

    method Next(nowMs: nat, random: nat) returns (id: string)
      requires Valid() && nowMs < MAX_48_BITS && random < MAX_48_BITS
      modifies this
      ensures Valid() && times == old(times) + [nowMs] && randoms == old(randoms) + [random]
      ensures Stamp(lastMs, entropy) == NextUlidStamp(old(Stamp(lastMs, entropy)), nowMs, random)
      ensures stamps == old(stamps) + [Stamp(lastMs, entropy)] && id == Ulid(Stamp(lastMs, entropy))
    {
      if nowMs == lastMs {
        entropy := (entropy + 1) % MAX_64_BITS;
      } else {
        lastMs := nowMs;
        entropy := random;
      }
      id := Write(nowMs, entropy);
      UlidExtends(stamps, times, randoms, nowMs, random, Stamp(lastMs, entropy));
      stamps := stamps + [Stamp(lastMs, entropy)];
      times, randoms := times + [nowMs], randoms + [random];
    }

    method Write(ms: nat, count: nat) returns (id: string)
      ensures id == Ulid(Stamp(ms, count))
    {
      var result := new char[26];
      Encode(result, 0, 10, ms);
      Encode(result, 10, 26, count);
      assert result[..] == result[0..10] + result[10..26];
      id := result[..];
    }

    /** The encoding loop: digits from the last place down to the first. */
    method Encode(result: array<char>, from: nat, to: nat, value: nat)
      requires from <= to <= result.Length
      modifies result
      ensures result[from..to] == Base32(value, to - from)
      ensures forall k :: 0 <= k < result.Length && !(from <= k < to) ==> result[k] == old(result[k])
    {
      var rest: nat := value;
      var i: nat := to;
      ghost var d := Digits(value, 32, to - from);
      while i > from
        invariant from <= i <= to
        invariant forall k :: 0 <= k < result.Length && !(i <= k < to) ==> result[k] == old(result[k])
        invariant forall k :: i <= k < to ==> result[k] == CROCKFORD[d[k - from]]
        invariant Digits(rest, 32, i - from) == d[..i - from]
      {
        i := i - 1;
        assert Digits(rest, 32, i + 1 - from) == Digits(rest / 32, 32, i - from) + [rest % 32];
        assert d[..i + 1 - from][i - from] == rest % 32;
        result[i] := CROCKFORD[rest % 32];
        rest := rest / 32;
      }
    }
  }
}
