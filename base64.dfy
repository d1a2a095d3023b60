/** Standard base64 (RFC 4648 section 4, with '=' padding), as used by
    base64.b64encode / base64.b64decode for binary attributes and stored
    password hashes. */
module Base64 {
  import opened Wrappers
  import opened Text

  type sextet = x: int | 0 <= x < 64

  /** The character that encodes a 6-bit value. */
  function Digit(v: sextet): (c: char)
  {
    if v < 26 then ('A' as int + v) as char
    else if v < 52 then ('a' as int + (v - 26)) as char
    else if v < 62 then ('0' as int + (v - 52)) as char
    else if v == 62 then '+'
    else '/'
  }

  /** The 6-bit value a character encodes, None for characters outside the
      alphabet (including the padding character '='). */
  function Value(c: char): (r: Option<sextet>)
    ensures r.Some? ==> Digit(r.value) == c
  {
    if 'A' as int <= c as int <= 'Z' as int then Some(c as int - 'A' as int)
    else if 'a' as int <= c as int <= 'z' as int then Some(c as int - 'a' as int + 26)
    else if '0' as int <= c as int <= '9' as int then Some(c as int - '0' as int + 52)
    else if c == '+' then Some(62)
    else if c == '/' then Some(63)
    else None
  }

  lemma ValueOfDigit(v: sextet)
    ensures Value(Digit(v)) == Some(v)
  {
  }

  // ---------------------------------------------------------------------------
  // Encoding
  // ---------------------------------------------------------------------------

  function EncodeBlock(a: byte, b: byte, c: byte): string
  {
    [Digit(a / 4), Digit((a % 4) * 16 + b / 16), Digit((b % 16) * 4 + c / 64), Digit(c % 64)]
  }

  /** The final group for one remaining byte: two digits and two pads. */
  function EncodeOne(a: byte): string
  {
    [Digit(a / 4), Digit((a % 4) * 16), '=', '=']
  }

  /** The final group for two remaining bytes: three digits and a pad. */
  function EncodeTwo(a: byte, b: byte): string
  {
    [Digit(a / 4), Digit((a % 4) * 16 + b / 16), Digit((b % 16) * 4), '=']
  }

  /** base64.b64encode(data).decode(). */
  function Encode(data: seq<byte>): (s: string)
    ensures |s| % 4 == 0
    ensures |data| > 0 <==> |s| > 0
  {
    if |data| == 0 then ""
    else if |data| == 1 then EncodeOne(data[0])
    else if |data| == 2 then EncodeTwo(data[0], data[1])
    else
      EncodeBlock(data[0], data[1], data[2]) + Encode(data[3..])
  }

  // ---------------------------------------------------------------------------
  // Decoding
  // ---------------------------------------------------------------------------

  /** Decodes one group of four characters; `last` says whether padding is
      allowed (only the final group may carry it). */
  function DecodeBlock(q: string, last: bool): Option<seq<byte>>
    requires |q| == 4
  {
    var v0, v1, v2, v3 := Value(q[0]), Value(q[1]), Value(q[2]), Value(q[3]);
    if v0.None? || v1.None? then None
    else
      var b0: byte := v0.value * 4 + v1.value / 16;
      if v2.Some? && v3.Some? then
        Some([b0, (v1.value % 16) * 16 + v2.value / 4, (v2.value % 4) * 64 + v3.value])
      else if last && v2.Some? && q[3] == '=' then
        Some([b0, (v1.value % 16) * 16 + v2.value / 4])
      else if last && q[2] == '=' && q[3] == '=' then
        Some([b0])
      else None
  }

  /** base64.b64decode(s) on well-formed input; None where the source raises
      binascii.Error. */
  function Decode(s: string): Option<seq<byte>>
    decreases |s|
  {
    if |s| == 0 then Some([])
    else if |s| < 4 then None
    else if |s| == 4 then DecodeBlock(s, true)
    else
      match DecodeBlock(s[..4], false)
      case None => None
      case Some(head) =>
        match Decode(s[4..])
        case None => None
        case Some(tail) => Some(head + tail)
  }

  // ---------------------------------------------------------------------------
  // Round trip
  // ---------------------------------------------------------------------------

  /** A group of four alphabet characters decodes to the three bytes their
      sextets spell. */
  lemma DecodeFullBlock(q: string, last: bool, v0: sextet, v1: sextet, v2: sextet, v3: sextet)
    requires |q| == 4 && Value(q[0]) == Some(v0) && Value(q[1]) == Some(v1)
    requires Value(q[2]) == Some(v2) && Value(q[3]) == Some(v3)
    ensures DecodeBlock(q, last) == Some([v0 * 4 + v1 / 16, (v1 % 16) * 16 + v2 / 4, (v2 % 4) * 64 + v3])
  {
  }

  /** Regrouping three bytes into four sextets and back gives the bytes. */
  lemma BlockArith(a: byte, b: byte, c: byte)
    ensures var v0, v1, v2, v3 := a / 4, (a % 4) * 16 + b / 16, (b % 16) * 4 + c / 64, c % 64;
      v0 * 4 + v1 / 16 == a && (v1 % 16) * 16 + v2 / 4 == b && (v2 % 4) * 64 + v3 == c
  {
    var v1, v2 := (a % 4) * 16 + b / 16, (b % 16) * 4 + c / 64;
    assert v1 / 16 == a % 4 && v1 % 16 == b / 16;
    assert v2 / 4 == b % 16 && v2 % 4 == c / 64;
  }

  lemma DecodeEncodeBlock(a: byte, b: byte, c: byte, last: bool)
    ensures DecodeBlock(EncodeBlock(a, b, c), last) == Some([a, b, c])
  {
    var v0, v1, v2, v3 := a / 4, (a % 4) * 16 + b / 16, (b % 16) * 4 + c / 64, c % 64;
    ValueOfDigit(v0);
    ValueOfDigit(v1);
    ValueOfDigit(v2);
    ValueOfDigit(v3);
    DecodeFullBlock(EncodeBlock(a, b, c), last, v0, v1, v2, v3);
    BlockArith(a, b, c);
  }

  lemma DecodeEncodeOne(a: byte)
    ensures DecodeBlock(EncodeOne(a), true) == Some([a])
  {
    ValueOfDigit(a / 4);
    ValueOfDigit((a % 4) * 16);
    assert (a % 4) * 16 / 16 == a % 4;
  }

  lemma DecodeEncodeTwo(a: byte, b: byte)
    ensures DecodeBlock(EncodeTwo(a, b), true) == Some([a, b])
  {
    ValueOfDigit(a / 4);
    ValueOfDigit((a % 4) * 16 + b / 16);
    ValueOfDigit((b % 16) * 4);
    assert ((a % 4) * 16 + b / 16) / 16 == a % 4;
    assert ((a % 4) * 16 + b / 16) % 16 == b / 16;
    assert ((b % 16) * 4) / 4 == b % 16;
  }

  /** Decoding a stream of at least two groups decodes the first group
      without padding and the rest on its own. */
  lemma DecodeSplit(head: string, tail: string)
    requires |head| == 4 && |tail| > 0
    ensures Decode(head + tail) ==
      match DecodeBlock(head, false)
      case None => None
      case Some(h) =>
        match Decode(tail)
        case None => None
        case Some(t) => Some(h + t)
  {
    var s := head + tail;
    assert s[..4] == head && s[4..] == tail;
  }

  /** Every byte string survives encoding then decoding. */
  lemma {:induction false} DecodeEncode(data: seq<byte>)
    ensures Decode(Encode(data)) == Some(data)
    decreases |data|
  {
    if |data| == 0 {
    } else if |data| == 1 {
      DecodeEncodeOne(data[0]);
      assert data == [data[0]];
    } else if |data| == 2 {
      DecodeEncodeTwo(data[0], data[1]);
      assert data == [data[0], data[1]];
    } else {
      var a, b, c, rest := data[0], data[1], data[2], data[3..];
      assert data == [a, b, c] + rest;
      assert Encode(data) == EncodeBlock(a, b, c) + Encode(rest);
      if |rest| == 0 {
        DecodeEncodeBlock(a, b, c, true);
        assert data == [a, b, c];
        assert Encode(data) == EncodeBlock(a, b, c);
        assert |EncodeBlock(a, b, c)| == 4;
      } else {
        DecodeEncodeBlock(a, b, c, false);
        DecodeEncode(rest);
        DecodeSplit(EncodeBlock(a, b, c), Encode(rest));
      }
    }
  }
}
