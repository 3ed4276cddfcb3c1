/** WebSocket text frames as the connection writes and reads them. */
module WebSocketFrames {
  import opened Options
  import opened Numbers

  /** Conversion to a byte keeps the low eight bits. */
  function ToByte(n: nat): Byte {
    n % 256
  }

  /** Exclusive or of the k lowest bits. */
  function XorBits(a: nat, b: nat, k: nat): (r: nat) {
    if k == 0 then 0 else 2 * XorBits(a / 2, b / 2, k - 1) + (a + b) % 2
  }

  lemma {:induction false} XorBound(a: nat, b: nat, k: nat, p: nat)
    requires p == Power(2, k)
    ensures XorBits(a, b, k) < p
  {
    if k > 0 {
      XorBound(a / 2, b / 2, k - 1, Power(2, k - 1));
    }
  }

  function Xor(a: Byte, b: Byte): Byte {
    assert Power(2, 8) == 256;
    XorBound(a, b, 8, 256);
    XorBits(a, b, 8)
  }

  /** Exclusive or with the same bits undoes itself. */
  lemma {:induction false} XorBitsTwice(a: nat, b: nat, k: nat)
    requires a < Power(2, k)
    ensures XorBits(XorBits(a, b, k), b, k) == a
  {
    if k > 0 {
      LastBit(a, b, XorBits(a / 2, b / 2, k - 1));
      XorBitsTwice(a / 2, b / 2, k - 1);
    }
  }

  lemma LastBit(a: nat, b: nat, x: nat)
    ensures (2 * x + (a + b) % 2) / 2 == x
    ensures 2 * (a / 2) + (2 * x + (a + b) % 2 + b) % 2 == a
  {
  }

  function BitOf(n: nat, i: nat): nat {
    if i == 0 then n % 2 else BitOf(n / 2, i - 1)
  }

  lemma {:induction false} XorBit(a: nat, b: nat, k: nat, i: nat)
    requires i < k
    ensures BitOf(XorBits(a, b, k), i) == 1 <==> BitOf(a, i) != BitOf(b, i)
  {
    var x := XorBits(a / 2, b / 2, k - 1);
    Doubled(x, (a + b) % 2);
    if i > 0 {
      XorBit(a / 2, b / 2, k - 1, i - 1);
    } else {
      Parity(a, b);
    }
  }

  lemma Doubled(x: nat, bit: nat)
    requires bit < 2
    ensures (2 * x + bit) / 2 == x && (2 * x + bit) % 2 == bit
  {
  }

  lemma Parity(a: nat, b: nat)
    ensures (a + b) % 2 == 1 <==> a % 2 != b % 2
  {
  }

  /** The frame of a message: lengths above 125 are written in sixteen bits, and what does not fit is dropped. */
  function Frame(message: seq<Byte>): seq<Byte> {
    var n := |message|;
    [0x81] + (if n <= 125 then [ToByte(n)] else [126, ToByte(n / 256), ToByte(n)]) + message
  }

  function Masked(payload: seq<Byte>, key: seq<Byte>): (r: seq<Byte>)
    requires |key| == 4
    ensures |r| == |payload|
  {
    seq(|payload|, i requires 0 <= i < |payload| => Xor(payload[i], key[i % 4]))
  }

  /** Section 5.3 of RFC 6455: byte i is masked with byte i modulo 4 of the key, bit by bit. */
  lemma MaskedBits(payload: seq<Byte>, key: seq<Byte>, i: nat, bit: nat)
    requires |key| == 4 && i < |payload| && bit < 8
    ensures BitOf(Masked(payload, key)[i], bit) == 1 <==> BitOf(payload[i], bit) != BitOf(key[i % 4], bit)
  {
    XorBit(payload[i], key[i % 4], 8, bit);
  }

  function Take(s: seq<Byte>, n: nat): Option<(seq<Byte>, seq<Byte>)> {
    if n <= |s| then Some((s[..n], s[n..])) else None
  }

  /** The high bit. */
  predicate HasMask(b: Byte) {
    b >= 0x80
  }

  /** The low seven bits. */
  function Low7(b: Byte): nat {
    b % 0x80
  }

  /** The length a frame announces, and what follows it. */
  function ReadLength(first: Byte, s: seq<Byte>): Option<(nat, seq<Byte>)> {
    if Low7(first) != 126 then Some((Low7(first), s))
    else match Take(s, 2)
      case None => None
      case Some((field, rest)) => Some((field[0] as int * 256 + field[1], rest))
  }

  function ReadBody(masked: bool, length: nat, s: seq<Byte>): Option<(seq<Byte>, seq<Byte>)> {
    if !masked then Take(s, length)
    else match Take(s, 4)
      case None => None
      case Some((key, rest)) =>
        match Take(rest, length)
        case None => None
        case Some((payload, after)) => Some((Masked(payload, key), after))
  }

  /** One message and the stream after it; None when the stream ends inside a frame. */
  function Read(s: seq<Byte>): Option<(seq<Byte>, seq<Byte>)> {
    match Take(s, 2)
    case None => None
    case Some((head, rest)) =>
      match ReadLength(head[1], rest)
      case None => None
      case Some((length, body)) => ReadBody(HasMask(head[1]), length, body)
  }

  class Conn {
    var input: seq<Byte>
    var output: seq<Byte>

    constructor (input: seq<Byte>)
      ensures this.input == input && output == []
    {
      this.input := input;
      output := [];
    }

    method ReadFull(n: nat) returns (bytes: Option<seq<Byte>>)
      modifies this`input
      ensures match Take(old(input), n)
              case None => bytes.None?
              case Some((taken, rest)) => bytes == Some(taken) && input == rest
    {
      if |input| < n {
        return None;
      }
      bytes := Some(input[..n]);
      input := input[n..];
    }

    method ReadMessage() returns (message: Option<seq<Byte>>)
      modifies this`input
      ensures match Read(old(input))
              case None => message.None?
              case Some((payload, rest)) => message == Some(payload) && input == rest
    {
      var head := ReadFull(2);
      if head.None? {
        return None;
      }
      var masked := HasMask(head.value[1]);
      var length := Low7(head.value[1]);
      if length == 126 {
        var field := ReadFull(2);
        if field.None? {
          return None;
        }
        length := field.value[0] as int * 256 + field.value[1];
      }
      message := ReadPayload(masked, length);
    }

    method ReadPayload(masked: bool, length: nat) returns (message: Option<seq<Byte>>)
      modifies this`input
      ensures match ReadBody(masked, length, old(input))
              case None => message.None?
              case Some((payload, rest)) => message == Some(payload) && input == rest
    {
      var key := Some([0, 0, 0, 0]);
      if masked {
        key := ReadFull(4);
        if key.None? {
          return None;
        }
      }
      message := ReadFull(length);
      if message.Some? && masked {
        var plain := Unmask(message.value, key.value);
        message := Some(plain);
      }
    }

    method WriteMessage(message: seq<Byte>)
      modifies this`output
      ensures output == old(output) + Frame(message)
    {
      var length := |message|;
      var frame: seq<Byte> := [0x81];
      if length <= 125 {
        frame := frame + [ToByte(length)];
      } else {
        frame := frame + [126, ToByte(length / 256), ToByte(length)];
      }
      output := output + (frame + message);
    }
  }

  /** The masking loop, in place on the payload. */
  method Unmask(payload: seq<Byte>, key: seq<Byte>) returns (plain: seq<Byte>)
    requires |key| == 4
    ensures plain == Masked(payload, key)
  {
    var buf := new Byte[|payload|](i requires 0 <= i < |payload| => payload[i]);
    for i := 0 to buf.Length
      invariant forall k :: 0 <= k < i ==> buf[k] == Xor(payload[k], key[k % 4])
      invariant forall k :: i <= k < buf.Length ==> buf[k] == payload[k]
    {
      buf[i] := Xor(buf[i], key[i % 4]);
    }
    plain := buf[..];
  }

  // ---- round trips -----------------------------------------------------------------------

  /** The length a written frame is read with: the message's, within sixteen bits. */
  lemma LengthRead(message: seq<Byte>, rest: seq<Byte>)
    ensures var s := Frame(message) + rest;
            |s| >= 2 && !HasMask(s[1]) && ReadLength(s[1], s[2..]) == Some((|message| % 65536, message + rest))
  {
    var n := |message|;
    var s := Frame(message) + rest;
    if n <= 125 {
      assert s[2..] == message + rest;
    } else {
      assert s[2..] == [ToByte(n / 256), ToByte(n)] + (message + rest);
      LongLength(n, message + rest);
    }
  }

  /** The two length bytes hold the length modulo 65536. */
  lemma LongLength(n: nat, body: seq<Byte>)
    ensures Take([ToByte(n / 256), ToByte(n)] + body, 2) == Some(([ToByte(n / 256), ToByte(n)], body))
    ensures ToByte(n / 256) as int * 256 + ToByte(n) == n % 65536
  {
    HighByte(n);
    var s := [ToByte(n / 256), ToByte(n)] + body;
    assert s[..2] == [ToByte(n / 256), ToByte(n)] && s[2..] == body;
  }

  lemma HighByte(n: nat)
    ensures n / 256 % 256 * 256 + n % 256 == n % 65536
  {
  }

  /**
   * Section 5.2 of RFC 6455: a final text frame without a mask, whose payload is the
   * message, behind a length of seven bits, or of 126 and sixteen bits.
   */
  lemma FrameLayout(message: seq<Byte>)
    ensures var f, n := Frame(message), |message|;
            && |f| >= 2 && f[0] == 0x80 + 0x1 && f[1] < 0x80
            && (n < 126 ==> f[1] == n && f[2..] == message)
            && (n >= 126 ==> f[1] == 126 && f[4..] == message && f[2] as int * 256 + f[3] == n % 65536)
  {
    if |message| >= 126 {
      HighByte(|message|);
    }
  }

  /** Reading what was written gives the message back exactly when it has at most 65535 bytes. */
  lemma RoundTrip(message: seq<Byte>, rest: seq<Byte>)
    ensures Read(Frame(message) + rest) == Some((message, rest)) <==> |message| <= 65535
  {
    var s, n := Frame(message) + rest, |message| % 65536;
    LengthRead(message, rest);
    assert s[..2][1] == s[1];
    assert Read(s) == Take(message + rest, n);
    assert |(message + rest)[..n]| == n;
    if |message| <= 65535 {
      assert (message + rest)[..n] == message && (message + rest)[n..] == rest;
    }
  }

  function Frames(messages: seq<seq<Byte>>): seq<Byte> {
    if messages == [] then [] else Frame(messages[0]) + Frames(messages[1..])
  }

  /** The first n messages of a stream. */
  function ReadMany(s: seq<Byte>, n: nat): Option<seq<seq<Byte>>> {
    if n == 0 then Some([])
    else match Read(s)
      case None => None
      case Some((message, rest)) =>
        match ReadMany(rest, n - 1)
        case None => None
        case Some(others) => Some([message] + others)
  }

  /** A stream of written frames is read as the list of messages that were written. */
  lemma {:induction false} StreamRoundTrip(messages: seq<seq<Byte>>)
    requires forall m <- messages :: |m| <= 65535
    ensures ReadMany(Frames(messages), |messages|) == Some(messages)
  {
    if messages != [] {
      StreamRoundTrip(messages[1..]);
      OneThenMore(messages[0], Frames(messages[1..]), |messages|, messages[1..]);
      assert messages == [messages[0]] + messages[1..];
    }
  }

  lemma OneThenMore(message: seq<Byte>, rest: seq<Byte>, n: nat, others: seq<seq<Byte>>)
    requires |message| <= 65535 && n > 0 && ReadMany(rest, n - 1) == Some(others)
    ensures ReadMany(Frame(message) + rest, n) == Some([message] + others)
  {
    RoundTrip(message, rest);
  }

  /** A client's frame: the mask bit, the key, and the masked payload. */
  function MaskedFrame(payload: seq<Byte>, key: seq<Byte>): seq<Byte>
    requires |key| == 4 && |payload| <= 65535
  {
    var n := |payload|;
    [0x81] + (if n <= 125 then [0x80 + n] else [0x80 + 126, ToByte(n / 256), ToByte(n)]) + key + Masked(payload, key)
  }

  lemma MaskTwice(payload: seq<Byte>, key: seq<Byte>)
    requires |key| == 4
    ensures Masked(Masked(payload, key), key) == payload
  {
    forall i | 0 <= i < |payload| ensures Masked(Masked(payload, key), key)[i] == payload[i] {
      XorTwice(payload[i], key[i % 4]);
    }
  }

  lemma XorTwice(a: Byte, k: Byte)
    ensures Xor(Xor(a, k), k) == a
  {
    assert Power(2, 8) == 256;
    XorBitsTwice(a, k, 8);
  }

  lemma MaskedLengthRead(payload: seq<Byte>, key: seq<Byte>, rest: seq<Byte>)
    requires |key| == 4 && |payload| <= 65535
    ensures var s := MaskedFrame(payload, key) + rest;
            && |s| >= 2 && HasMask(s[1])
            && ReadLength(s[1], s[2..]) == Some((|payload|, key + (Masked(payload, key) + rest)))
  {
    var n := |payload|;
    var s, body := MaskedFrame(payload, key) + rest, key + (Masked(payload, key) + rest);
    if n <= 125 {
      assert s[2..] == body;
    } else {
      assert s[2..] == [ToByte(n / 256), ToByte(n)] + body;
      LongLength(n, body);
    }
  }

  /** Reading a client's masked frame gives its payload. */
  lemma MaskedRoundTrip(payload: seq<Byte>, key: seq<Byte>, rest: seq<Byte>)
    requires |key| == 4 && |payload| <= 65535
    ensures Read(MaskedFrame(payload, key) + rest) == Some((payload, rest))
  {
    var s, masked := MaskedFrame(payload, key) + rest, Masked(payload, key);
    MaskedLengthRead(payload, key, rest);
    assert s[..2][1] == s[1];
    assert (key + (masked + rest))[..4] == key && (key + (masked + rest))[4..] == masked + rest;
    assert (masked + rest)[..|payload|] == masked && (masked + rest)[|payload|..] == rest;
    MaskTwice(payload, key);
  }
}
