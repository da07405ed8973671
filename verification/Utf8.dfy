/** Text as UTF-8 bytes (section 3 of RFC 3629), as Python's `encode` and `decode` do it. */
module Utf8 {
  import opened Contacts
  import opened Base64
  import opened Codec

  function EncodeChar(c: char): (b: seq<Byte>)
    ensures 1 <= |b| <= 4
  {
    var n := c as int;
    if n < 0x80 then [n]
    else if n < 0x800 then [0xC0 + n / 64, 0x80 + n % 64]
    else if n < 0x1_0000 then [0xE0 + n / 4096, 0x80 + n / 64 % 64, 0x80 + n % 64]
    else [0xF0 + n / 0x4_0000, 0x80 + n / 4096 % 64, 0x80 + n / 64 % 64, 0x80 + n % 64]
  }

  function ToBytes(s: string): seq<Byte>
  {
    if s == "" then [] else EncodeChar(s[0]) + ToBytes(s[1..])
  }

  // The numbers that leading and following bytes stand for.
  function Two(a: int, b: int): int
  {
    (a - 0xC0) * 64 + (b - 0x80)
  }

  function Three(a: int, b: int, c: int): int
  {
    (a - 0xE0) * 4096 + (b - 0x80) * 64 + (c - 0x80)
  }

  function Four(a: int, b: int, c: int, d: int): int
  {
    (a - 0xF0) * 0x4_0000 + (b - 0x80) * 4096 + (c - 0x80) * 64 + (d - 0x80)
  }

  lemma TwoBack(a: int, b: int)
    requires 0x80 <= b < 0xC0
    ensures var n := Two(a, b); 0xC0 + n / 64 == a && 0x80 + n % 64 == b
  {
  }

  lemma ThreeBack(a: int, b: int, c: int)
    requires 0x80 <= b < 0xC0 && 0x80 <= c < 0xC0
    ensures var n := Three(a, b, c);
            0xE0 + n / 4096 == a && 0x80 + n / 64 % 64 == b && 0x80 + n % 64 == c
  {
    var n := Three(a, b, c);
    assert n / 64 == (a - 0xE0) * 64 + (b - 0x80);
  }

  lemma FourBack(a: int, b: int, c: int, d: int)
    requires 0x80 <= b < 0xC0 && 0x80 <= c < 0xC0 && 0x80 <= d < 0xC0
    ensures var n := Four(a, b, c, d);
            0xF0 + n / 0x4_0000 == a && 0x80 + n / 4096 % 64 == b
            && 0x80 + n / 64 % 64 == c && 0x80 + n % 64 == d
  {
    var n := Four(a, b, c, d);
    assert n / 64 == (a - 0xF0) * 4096 + (b - 0x80) * 64 + (c - 0x80);
    assert n / 4096 == (a - 0xF0) * 64 + (b - 0x80);
  }

  // The character at the head of some bytes and how many of them it takes.
  function Head(b: seq<Byte>): (r: Option<(char, nat)>)
    requires b != []
    ensures r.Some? ==> 0 < r.value.1 <= |b|
  {
    if b[0] < 0x80 then Some((b[0] as char, 1))
    else if 0xC2 <= b[0] <= 0xDF then
      if |b| >= 2 && Follows(b[1], 0x80, 0xBF) then
        Some((Two(b[0], b[1]) as char, 2))
      else None
    else if 0xE0 <= b[0] <= 0xEF then
      if |b| >= 3
         && Follows(b[1], if b[0] == 0xE0 then 0xA0 else 0x80, if b[0] == 0xED then 0x9F else 0xBF)
         && Follows(b[2], 0x80, 0xBF)
      then Some((Three(b[0], b[1], b[2]) as char, 3))
      else None
    else if 0xF0 <= b[0] <= 0xF4 then
      if |b| >= 4
         && Follows(b[1], if b[0] == 0xF0 then 0x90 else 0x80, if b[0] == 0xF4 then 0x8F else 0xBF)
         && Follows(b[2], 0x80, 0xBF) && Follows(b[3], 0x80, 0xBF)
      then Some((Four(b[0], b[1], b[2], b[3]) as char, 4))
      else None
    else None
  }

  // None where `decode` raises.
  function ToText(b: seq<Byte>): Option<string>
  {
    if b == [] then Some("")
    else match Head(b)
      case None => None
      case Some((c, n)) =>
        match ToText(b[n..]) case None => None case Some(s) => Some([c] + s)
  }

  lemma DigitsJoined(n: nat)
    ensures Two(0xC0 + n / 64, 0x80 + n % 64) == n
    ensures Three(0xE0 + n / 4096, 0x80 + n / 64 % 64, 0x80 + n % 64) == n
    ensures Four(0xF0 + n / 0x4_0000, 0x80 + n / 4096 % 64, 0x80 + n / 64 % 64, 0x80 + n % 64) == n
  {
    assert n / 4096 == n / 64 / 64 && n / 0x4_0000 == n / 64 / 64 / 64;
  }

  // What is read at the head depends on the bytes of that character alone.
  lemma HeadAlone(b: seq<Byte>, rest: seq<Byte>)
    requires b != [] && Head(b).Some?
    ensures Head(b + rest) == Head(b)
  {
    hide Two, Three, Four;
  }

  lemma HeadOfChar(c: char)
    ensures Head(EncodeChar(c)) == Some((c, |EncodeChar(c)|))
  {
    DigitsJoined(c as int);
    hide Two, Three, Four;
  }

  lemma {:induction false} TextRoundTrip(s: string)
    ensures ToText(ToBytes(s)) == Some(s)
  {
    if s != "" {
      var rest := ToBytes(s[1..]);
      HeadOfChar(s[0]);
      HeadAlone(EncodeChar(s[0]), rest);
      TextRoundTrip(s[1..]);
      assert (EncodeChar(s[0]) + rest)[|EncodeChar(s[0])|..] == rest;
      assert s == [s[0]] + s[1..];
    }
  }

  lemma HeadEncodes(b: seq<Byte>)
    requires b != [] && Head(b).Some?
    ensures EncodeChar(Head(b).value.0) == b[..Head(b).value.1]
  {
    var n := Head(b).value.1;
    if n == 2 {
      TwoBack(b[0], b[1]);
    } else if n == 3 {
      ThreeBack(b[0], b[1], b[2]);
    } else if n == 4 {
      FourBack(b[0], b[1], b[2], b[3]);
    }
  }

  // Bytes are read as text exactly when they are well-formed, and are then the bytes of that text.
  lemma {:induction false} BytesRoundTrip(b: seq<Byte>)
    ensures ToText(b).Some? <==> IsUtf8(b)
    ensures ToText(b).Some? ==> ToBytes(ToText(b).value) == b
  {
    if b != [] && Head(b).Some? {
      var n := Head(b).value.1;
      HeadEncodes(b);
      BytesRoundTrip(b[n..]);
      assert b == b[..n] + b[n..];
    }
  }
}
