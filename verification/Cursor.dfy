/** Page cursors: "v1:" and a decimal offset, in unpadded URL-safe base64. */
module Cursor {
  import opened Options
  import opened Decimal

  function Char64(n: nat): (c: char)
    requires n < 64
    ensures Value64(c) == Some(n) && c != '\r' && c != '\n'
  {
    if n < 26 then 'A' + n as char
    else if n < 52 then 'a' + (n - 26) as char
    else if n < 62 then '0' + (n - 52) as char
    else if n == 62 then '-' else '_'
  }

  function Value64(c: char): (n: Option<nat>)
    ensures n.Some? ==> n.value < 64
  {
    if 'A' <= c <= 'Z' then Some(c as int - 'A' as int)
    else if 'a' <= c <= 'z' then Some(c as int - 'a' as int + 26)
    else if '0' <= c <= '9' then Some(c as int - '0' as int + 52)
    else if c == '-' then Some(62)
    else if c == '_' then Some(63)
    else None
  }

  predicate Bytes(s: string) {
    forall i :: 0 <= i < |s| ==> s[i] as int < 256
  }

  predicate NoBreaks(s: string) {
    forall i :: 0 <= i < |s| ==> s[i] != '\r' && s[i] != '\n'
  }

  function Encode64(s: string): (r: string)
    requires Bytes(s)
    ensures NoBreaks(r)
  {
    if s == [] then []
    else if |s| == 1 then
      var b := s[0] as int;
      [Char64(b / 4), Char64(b % 4 * 16)]
    else if |s| == 2 then
      var a, b := s[0] as int, s[1] as int;
      [Char64(a / 4), Char64(a % 4 * 16 + b / 16), Char64(b % 16 * 4)]
    else
      var a, b, c := s[0] as int, s[1] as int, s[2] as int;
      [Char64(a / 4), Char64(a % 4 * 16 + b / 16), Char64(b % 16 * 4 + c / 64), Char64(c % 64)] + Encode64(s[3..])
  }

  /** Groups of four characters; a final group of two or three may carry unused low bits. */
  function Decode64(s: string): Option<string> {
    if s == [] then Some([])
    else if |s| == 1 || Value64(s[0]).None? || Value64(s[1]).None? then None
    else
      var w, x := Value64(s[0]).value, Value64(s[1]).value;
      var first := (w * 4 + x / 16) as char;
      if |s| == 2 then Some([first])
      else if Value64(s[2]).None? then None
      else
        var y := Value64(s[2]).value;
        var second := (x % 16 * 16 + y / 4) as char;
        if |s| == 3 then Some([first, second])
        else if Value64(s[3]).None? then None
        else
          var third := (y % 4 * 64 + Value64(s[3]).value) as char;
          match Decode64(s[4..])
          case None => None
          case Some(rest) => Some([first, second, third] + rest)
  }

  /** The decoder skips line breaks. */
  function WithoutBreaks(s: string): string {
    if s == [] then []
    else if s[0] == '\r' || s[0] == '\n' then WithoutBreaks(s[1..])
    else [s[0]] + WithoutBreaks(s[1..])
  }

  lemma {:induction false} NothingSkipped(s: string)
    requires NoBreaks(s)
    ensures WithoutBreaks(s) == s
  {
    if s != [] {
      NothingSkipped(s[1..]);
    }
  }

  /** Three bytes are recovered from their four six-bit digits. */
  lemma Group(a: nat, b: nat, c: nat)
    requires a < 256 && b < 256 && c < 256
    ensures var x, y := a % 4 * 16 + b / 16, b % 16 * 4 + c / 64;
            && x < 64 && y < 64
            && a / 4 * 4 + x / 16 == a && x % 16 * 16 + y / 4 == b && y % 4 * 64 + c % 64 == c
  {
  }

  /** e begins with the digits of the bytes a, b and c. */
  ghost predicate Spells(e: string, a: nat, b: nat, c: nat) {
    && (|e| > 0 ==> Value64(e[0]) == Some(a / 4))
    && (|e| > 1 ==> Value64(e[1]) == Some(a % 4 * 16 + b / 16))
    && (|e| > 2 ==> Value64(e[2]) == Some(b % 16 * 4 + c / 64))
    && (|e| > 3 ==> Value64(e[3]) == Some(c % 64))
  }

  function ByteAt(s: string, i: nat): (b: nat)
    requires Bytes(s)
    ensures b < 256 && (i < |s| ==> s[i] == b as char)
  {
    if i < |s| then s[i] as int else 0
  }

  lemma EncodingSpells(s: string)
    requires Bytes(s) && s != []
    ensures Spells(Encode64(s), ByteAt(s, 0), ByteAt(s, 1), ByteAt(s, 2))
    ensures |s| < 3 ==> |Encode64(s)| == |s| + 1
    ensures |s| >= 3 ==> |Encode64(s)| >= 4 && Encode64(s)[4..] == Encode64(s[3..])
  {
    if |s| >= 3 {
      LongSpells(s);
    } else {
      ShortSpells(s);
    }
  }

  lemma ShortSpells(s: string)
    requires Bytes(s) && 1 <= |s| < 3
    ensures Spells(Encode64(s), ByteAt(s, 0), ByteAt(s, 1), 0) && |Encode64(s)| == |s| + 1
  {
  }

  lemma LongSpells(s: string)
    requires Bytes(s) && |s| >= 3
    ensures Spells(Encode64(s), ByteAt(s, 0), ByteAt(s, 1), ByteAt(s, 2))
    ensures |Encode64(s)| >= 4 && Encode64(s)[4..] == Encode64(s[3..])
  {
    GroupSpells(ByteAt(s, 0), ByteAt(s, 1), ByteAt(s, 2), Encode64(s[3..]));
  }

  lemma GroupSpells(a: nat, b: nat, c: nat, more: string)
    requires a < 256 && b < 256 && c < 256
    ensures var e := [Char64(a / 4), Char64(a % 4 * 16 + b / 16), Char64(b % 16 * 4 + c / 64), Char64(c % 64)] + more;
            Spells(e, a, b, c) && e[4..] == more
  {
  }

  /** A final group of two or three digits holds one or two bytes. */
  lemma LastGroup(s: string, e: string)
    requires Bytes(s) && 1 <= |s| <= 2 && |e| == |s| + 1 && Spells(e, ByteAt(s, 0), ByteAt(s, 1), 0)
    ensures Decode64(e) == Some(s)
  {
    Group(ByteAt(s, 0), ByteAt(s, 1), 0);
    assert s == if |s| == 1 then [s[0]] else [s[0], s[1]];
  }

  lemma WholeGroup(s: string, e: string)
    requires Bytes(s) && |s| >= 3 && |e| >= 4 && Spells(e, ByteAt(s, 0), ByteAt(s, 1), ByteAt(s, 2))
    requires Decode64(e[4..]) == Some(s[3..])
    ensures Decode64(e) == Some(s)
  {
    Group(ByteAt(s, 0), ByteAt(s, 1), ByteAt(s, 2));
    assert s == [s[0], s[1], s[2]] + s[3..];
  }

  lemma {:induction false} Base64RoundTrip(s: string)
    requires Bytes(s)
    ensures Decode64(Encode64(s)) == Some(s)
  {
    if s != [] {
      EncodingSpells(s);
      if |s| >= 3 {
        Base64RoundTrip(s[3..]);
        WholeGroup(s, Encode64(s));
      } else {
        LastGroup(s, Encode64(s));
      }
    }
  }

  const UPPER := "ABCDEFGHIJKLMNOPQRSTUVWXYZ"
  const LOWER := "abcdefghijklmnopqrstuvwxyz"
  const OTHERS := "0123456789-_"

  /** Table 2 of RFC 4648. */
  lemma CharIsStandard(n: nat)
    requires n < 64
    ensures |UPPER + LOWER + OTHERS| == 64 && Char64(n) == (UPPER + LOWER + OTHERS)[n]
  {
    if n < 26 {
      UpperCase(n);
    } else if n < 52 {
      LowerCase(n - 26);
    } else {
      OtherCase(n - 52);
    }
  }

  lemma UpperCase(n: nat)
    requires n < 26
    ensures UPPER[n] == 'A' + n as char
  {
  }

  lemma LowerCase(n: nat)
    requires n < 26
    ensures LOWER[n] == 'a' + n as char
  {
  }

  lemma OtherCase(n: nat)
    requires n < 12
    ensures OTHERS[n] == if n < 10 then '0' + n as char else if n == 10 then '-' else '_'
  {
  }

  /** Digits are read as what they are written for. */
  lemma ValueWrites(c: char)
    ensures Value64(c).Some? ==> Char64(Value64(c).value) == c
  {
  }

  /** The six-bit digits of three bytes are the digits they were made of. */
  lemma Ungroup(w: nat, x: nat, y: nat, z: nat)
    requires w < 64 && x < 64 && y < 64 && z < 64
    ensures var a, b, c := w * 4 + x / 16, x % 16 * 16 + y / 4, y % 4 * 64 + z;
            && a < 256 && b < 256 && c < 256
            && a / 4 == w && a % 4 * 16 + b / 16 == x && b % 16 * 4 + c / 64 == y && c % 64 == z
            && a % 4 * 16 == x / 16 * 16 % 64 && b % 16 * 4 == y / 4 * 4 % 64
  {
  }

  /** Whatever is decoded is the encoding of what it gives, but for the unused low bits of a last digit. */
  ghost predicate Writes(s: string, e: string) {
    && Bytes(s) && |Encode64(s)| == |e|
    && (if |e| % 4 == 0 then Encode64(s) == e else Encode64(s)[..|e| - 1] == e[..|e| - 1])
  }

  lemma {:induction false} DecodedWrites(e: string)
    requires Decode64(e).Some?
    ensures Writes(Decode64(e).value, e)
  {
    if |e| > 3 {
      DecodedWrites(e[4..]);
      LongDecodes(e, Decode64(e[4..]).value);
      LongWrites(Decode64(e).value, e, Value64(e[0]).value, Value64(e[1]).value, Value64(e[2]).value,
                 Value64(e[3]).value);
    } else if e != [] {
      ShortDecodes(e);
      if |e| == 3 {
        ShortWrites(Decode64(e).value, e, Value64(e[0]).value, Value64(e[1]).value, Value64(e[2]).value);
      } else {
        ShortestWrites(Decode64(e).value, e, Value64(e[0]).value, Value64(e[1]).value);
      }
    }
  }

  /** What the first four digits decode to. */
  lemma LongDecodes(e: string, rest: string)
    requires |e| > 3 && Decode64(e).Some? && Decode64(e[4..]) == Some(rest) && Bytes(rest)
    ensures forall i :: 0 <= i < 4 ==> Value64(e[i]).Some?
    ensures var w, x, y, z := Value64(e[0]).value, Value64(e[1]).value, Value64(e[2]).value, Value64(e[3]).value;
            var s := Decode64(e).value;
            && Bytes(s) && |s| >= 3 && s[3..] == rest && w < 64 && x < 64 && y < 64 && z < 64
            && ByteAt(s, 0) == w * 4 + x / 16 && ByteAt(s, 1) == x % 16 * 16 + y / 4 && ByteAt(s, 2) == y % 4 * 64 + z
  {
  }

  lemma ShortDecodes(e: string)
    requires 2 <= |e| <= 3 && Decode64(e).Some?
    ensures forall i :: 0 <= i < |e| ==> Value64(e[i]).Some?
    ensures var w, x := Value64(e[0]).value, Value64(e[1]).value;
            var y := if |e| == 3 then Value64(e[2]).value else 0;
            var s := Decode64(e).value;
            && Bytes(s) && |s| == |e| - 1 && w < 64 && x < 64 && y < 64
            && ByteAt(s, 0) == w * 4 + x / 16 && (|e| == 3 ==> ByteAt(s, 1) == x % 16 * 16 + y / 4)
  {
  }

  lemma SameChar(c: char, d: char)
    requires Value64(c).Some? && Value64(c) == Value64(d)
    ensures c == d
  {
    ValueWrites(c);
    ValueWrites(d);
  }

  /** Digits that spell the bytes which other digits give are those digits. */
  lemma FirstSame(r: string, e: string, a: nat, w: nat, x: nat)
    requires r != "" && e != "" && Spells(r, a, 0, 0) && w < 64 && x < 64
    requires a == w * 4 + x / 16 && Value64(e[0]) == Some(w)
    ensures r[0] == e[0]
  {
    Ungroup(w, x, 0, 0);
    SameChar(r[0], e[0]);
  }

  lemma TwoSame(r: string, e: string, a: nat, b: nat, w: nat, x: nat, y: nat)
    requires |r| >= 2 && |e| >= 2 && Spells(r, a, b, 0) && w < 64 && x < 64 && y < 64
    requires a == w * 4 + x / 16 && b == x % 16 * 16 + y / 4
    requires Value64(e[0]) == Some(w) && Value64(e[1]) == Some(x)
    ensures r[..2] == e[..2]
  {
    Ungroup(w, x, y, 0);
    SameChar(r[0], e[0]);
    SameChar(r[1], e[1]);
  }

  lemma FourSame(r: string, e: string, a: nat, b: nat, c: nat, w: nat, x: nat, y: nat, z: nat)
    requires |r| >= 4 && |e| >= 4 && w < 64 && x < 64 && y < 64 && z < 64 && Spells(r, a, b, c)
    requires a == w * 4 + x / 16 && b == x % 16 * 16 + y / 4 && c == y % 4 * 64 + z
    requires Value64(e[0]) == Some(w) && Value64(e[1]) == Some(x)
    requires Value64(e[2]) == Some(y) && Value64(e[3]) == Some(z)
    ensures r[..4] == e[..4]
  {
    Ungroup(w, x, y, z);
    SameChar(r[0], e[0]);
    SameChar(r[1], e[1]);
    SameChar(r[2], e[2]);
    SameChar(r[3], e[3]);
  }

  lemma ShortWrites(s: string, e: string, w: nat, x: nat, y: nat)
    requires Bytes(s) && |s| == 2 && |e| == 3 && w < 64 && x < 64 && y < 64
    requires Value64(e[0]) == Some(w) && Value64(e[1]) == Some(x)
    requires ByteAt(s, 0) == w * 4 + x / 16 && ByteAt(s, 1) == x % 16 * 16 + y / 4
    ensures Writes(s, e)
  {
    EncodingSpells(s);
    TwoSame(Encode64(s), e, ByteAt(s, 0), ByteAt(s, 1), w, x, y);
  }

  lemma ShortestWrites(s: string, e: string, w: nat, x: nat)
    requires Bytes(s) && |s| == 1 && |e| == 2 && w < 64 && x < 64
    requires Value64(e[0]) == Some(w) && ByteAt(s, 0) == w * 4 + x / 16
    ensures Writes(s, e)
  {
    EncodingSpells(s);
    FirstSame(Encode64(s), e, ByteAt(s, 0), w, x);
  }

  lemma LongWrites(s: string, e: string, w: nat, x: nat, y: nat, z: nat)
    requires Bytes(s) && |s| >= 3 && |e| > 3 && Writes(s[3..], e[4..]) && w < 64 && x < 64 && y < 64 && z < 64
    requires Value64(e[0]) == Some(w) && Value64(e[1]) == Some(x)
    requires Value64(e[2]) == Some(y) && Value64(e[3]) == Some(z)
    requires ByteAt(s, 0) == w * 4 + x / 16 && ByteAt(s, 1) == x % 16 * 16 + y / 4 && ByteAt(s, 2) == y % 4 * 64 + z
    ensures Writes(s, e)
  {
    EncodingSpells(s);
    FourSame(Encode64(s), e, ByteAt(s, 0), ByteAt(s, 1), ByteAt(s, 2), w, x, y, z);
    SameTail(Encode64(s), Encode64(s[3..]), e);
  }

  lemma SameTail(r: string, tail: string, e: string)
    requires |r| >= 4 && |e| >= 4 && r[..4] == e[..4] && r[4..] == tail && |tail| == |e| - 4
    requires if (|e| - 4) % 4 == 0 then tail == e[4..] else tail[..|e| - 5] == e[4..][..|e| - 5]
    ensures |r| == |e| && if |e| % 4 == 0 then r == e else r[..|e| - 1] == e[..|e| - 1]
  {
    assert r == r[..4] + r[4..] && e == e[..4] + e[4..];
    if |e| % 4 != 0 {
      var k := |e| - 1;
      assert r[..k] == r[..4] + r[4..][..k - 4] && e[..k] == e[..4] + e[4..][..k - 4];
    }
  }

  function EncodeCursor(offset: int): string {
    if offset <= 0 then "" else
      assert Bytes("v1:" + FormatInt(offset));
      Encode64("v1:" + FormatInt(offset))
  }

  function DecodeCursor(cursor: string): Option<nat> {
    if cursor == "" then Some(0)
    else match Decode64(WithoutBreaks(cursor))
      case None => None
      case Some(text) =>
        if !("v1:" <= text) then None
        else match ParseInt(text[3..])
          case None => None
          case Some(offset) => if offset < 0 then None else Some(offset)
  }

  /** Exactly the texts of the first version that name an offset are cursors, besides none for the beginning. */
  lemma CursorsExactly(cursor: string, offset: nat)
    ensures DecodeCursor(cursor) == Some(offset) <==>
              if cursor == "" then offset == 0
              else exists digits ::
                Decode64(WithoutBreaks(cursor)) == Some("v1:" + digits) && ParseInt(digits) == Some(offset)
  {
    if cursor != "" && DecodeCursor(cursor) == Some(offset) {
      var text := Decode64(WithoutBreaks(cursor)).value;
      assert text == "v1:" + text[3..];
    }
    if digits :| Decode64(WithoutBreaks(cursor)) == Some("v1:" + digits) && ParseInt(digits) == Some(offset) {
      assert ("v1:" + digits)[3..] == digits;
      assert "v1:" <= "v1:" + digits;
    }
  }

  /** A cursor leads back to the offset it was made from. */
  lemma CursorRoundTrip(offset: int)
    requires 0 <= offset <= MAX_INT64
    ensures DecodeCursor(EncodeCursor(offset)) == Some(offset)
    ensures EncodeCursor(offset) == "" <==> offset == 0
    ensures offset > 0 ==> Decode64(EncodeCursor(offset)) == Some("v1:" + FormatInt(offset))
  {
    if offset > 0 {
      var text := "v1:" + FormatInt(offset);
      Base64RoundTrip(text);
      NothingSkipped(Encode64(text));
      FormatParses(offset);
      assert text[3..] == FormatInt(offset);
      assert "v1:" <= text;
    }
  }
}
