/** Base64 with the URL-safe alphabet (section 5 of RFC 4648), as Python encodes and decodes it. */
module Base64 {
  import opened Contacts

  type Byte = b: int | 0 <= b < 256 witness 0

  // ---------- the alphabet ----------

  function Symbol(d: nat): char
    requires d < 64
  {
    if d < 26 then 'A' + d as char
    else if d < 52 then 'a' + (d - 26) as char
    else if d < 62 then '0' + (d - 52) as char
    else if d == 62 then '-' else '_'
  }

  // The decoder also takes the two symbols of the standard alphabet.
  function DigitOf(c: char): Option<nat>
  {
    if 'A' <= c <= 'Z' then Some((c as int - 'A' as int) as nat)
    else if 'a' <= c <= 'z' then Some(c as int - 'a' as int + 26)
    else if '0' <= c <= '9' then Some(c as int - '0' as int + 52)
    else if c == '-' || c == '+' then Some(62)
    else if c == '_' || c == '/' then Some(63)
    else None
  }

  lemma DigitOfSymbol(d: nat)
    requires d < 64
    ensures DigitOf(Symbol(d)) == Some(d) && Symbol(d) != '=' && Symbol(d) < 128 as char
  {
  }

  // ---------- encoding ----------

  function Encode(b: seq<Byte>): string
  {
    if |b| == 0 then ""
    else if |b| == 1 then [Symbol(b[0] / 4), Symbol(b[0] % 4 * 16), '=', '=']
    else if |b| == 2 then
      [Symbol(b[0] / 4), Symbol(b[0] % 4 * 16 + b[1] / 16), Symbol(b[1] % 16 * 4), '=']
    else Quad(b[0], b[1], b[2]) + Encode(b[3..])
  }

  function Quad(x: Byte, y: Byte, z: Byte): string
  {
    [Symbol(x / 4), Symbol(x % 4 * 16 + y / 16), Symbol(y % 16 * 4 + z / 64), Symbol(z % 64)]
  }

  // ---------- decoding ----------

  // The state of the decoder: position in the group of four, the bits left over, and the padding
  // seen since the last digit.  Characters outside the alphabet are skipped; enough padding ends
  // the input; an unfinished group is an error.
  function Scan(s: string, quad: nat, left: nat, pads: nat): Option<seq<Byte>>
    requires quad < 4
    requires left < (if quad == 0 then 1 else if quad == 1 then 64 else if quad == 2 then 16 else 4)
  {
    if s == "" then
      if quad == 0 then Some([]) else None
    else if s[0] == '=' then
      if quad >= 2 then
        if quad + pads + 1 >= 4 then Some([]) else Scan(s[1..], quad, left, pads + 1)
      else Scan(s[1..], quad, left, pads)
    else match DigitOf(s[0])
      case None => Scan(s[1..], quad, left, pads)
      case Some(d) =>
        DigitBound(s[0]);
        if quad == 0 then Scan(s[1..], 1, d, 0)
        else if quad == 1 then Push(left * 4 + d / 16, Scan(s[1..], 2, d % 16, 0))
        else if quad == 2 then Push(left * 16 + d / 4, Scan(s[1..], 3, d % 4, 0))
        else Push(left * 64 + d, Scan(s[1..], 0, 0, 0))
  }

  lemma DigitBound(c: char)
    ensures DigitOf(c).Some? ==> DigitOf(c).value < 64
  {
  }

  function Push(b: Byte, rest: Option<seq<Byte>>): Option<seq<Byte>>
  {
    match rest case None => None case Some(r) => Some([b] + r)
  }

  function Decode(s: string): Option<seq<Byte>>
  {
    if forall c :: c in s ==> c < 128 as char then Scan(s, 0, 0, 0) else None
  }

  // ---------- round trip ----------

  lemma ScanDigit(s: string, d: nat, t: string, quad: nat, left: nat, pads: nat)
    requires d < 64 && quad < 4 && s == [Symbol(d)] + t
    requires left < (if quad == 0 then 1 else if quad == 1 then 64 else if quad == 2 then 16 else 4)
    ensures Scan(s, quad, left, pads) ==
            if quad == 0 then Scan(t, 1, d, 0)
            else if quad == 1 then Push(left * 4 + d / 16, Scan(t, 2, d % 16, 0))
            else if quad == 2 then Push(left * 16 + d / 4, Scan(t, 3, d % 4, 0))
            else Push(left * 64 + d, Scan(t, 0, 0, 0))
  {
  }

  // The six-bit digits put together again.
  lemma Regroup(x: Byte, y: Byte, z: Byte)
    ensures var b, c := x % 4 * 16 + y / 16, y % 16 * 4 + z / 64;
            x / 4 * 4 + b / 16 == x && b % 16 * 16 + c / 4 == y && c % 4 * 64 + z % 64 == z
  {
  }

  lemma ScanQuad(x: Byte, y: Byte, z: Byte, t: string)
    ensures Scan(Quad(x, y, z) + t, 0, 0, 0) == Push(x, Push(y, Push(z, Scan(t, 0, 0, 0))))
  {
    hide Scan, Symbol;
    var a, b, c, d := x / 4, x % 4 * 16 + y / 16, y % 16 * 4 + z / 64, z % 64;
    var s0 := Quad(x, y, z) + t;
    var s1 := [Symbol(b), Symbol(c), Symbol(d)] + t;
    var s2 := [Symbol(c), Symbol(d)] + t;
    var s3 := [Symbol(d)] + t;
    assert s0 == [Symbol(a)] + s1 && s1 == [Symbol(b)] + s2 && s2 == [Symbol(c)] + s3;
    Regroup(x, y, z);
    ScanDigit(s0, a, s1, 0, 0, 0);
    ScanDigit(s1, b, s2, 1, a, 0);
    ScanDigit(s2, c, s3, 2, b % 16, 0);
    ScanDigit(s3, d, t, 3, c % 4, 0);
  }

  lemma ScanOne(x: Byte)
    ensures Scan(Encode([x]), 0, 0, 0) == Some([x])
  {
    var a, b := x / 4, x % 4 * 16;
    var s0, s1 := Encode([x]), [Symbol(b), '=', '='];
    assert s0 == [Symbol(a)] + s1;
    Regroup(x, 0, 0);
    ScanDigit(s0, a, s1, 0, 0, 0);
    assert s1 == [Symbol(b)] + "==";
    ScanDigit(s1, b, "==", 1, a, 0);
    assert "=="[1..] == "=";
    assert Scan("==", 2, 0, 0) == Scan("=", 2, 0, 1);
    assert Scan("=", 2, 0, 1) == Some([]);
    assert [x] + [] == [x];
  }

  lemma ScanTwo(x: Byte, y: Byte)
    ensures Scan(Encode([x, y]), 0, 0, 0) == Some([x, y])
  {
    var a, b, c := x / 4, x % 4 * 16 + y / 16, y % 16 * 4;
    var s0, s1, s2 := Encode([x, y]), [Symbol(b), Symbol(c), '='], [Symbol(c), '='];
    assert s0 == [Symbol(a)] + s1 && s1 == [Symbol(b)] + s2 && s2 == [Symbol(c)] + "=";
    Regroup(x, y, 0);
    ScanDigit(s0, a, s1, 0, 0, 0);
    ScanDigit(s1, b, s2, 1, a, 0);
    ScanDigit(s2, c, "=", 2, b % 16, 0);
    assert Scan("=", 3, 0, 0) == Some([]);
    assert [x] + ([y] + []) == [x, y];
  }

  lemma {:induction false} ScanEncode(b: seq<Byte>)
    ensures Scan(Encode(b), 0, 0, 0) == Some(b)
  {
    if |b| == 1 {
      assert b == [b[0]];
      ScanOne(b[0]);
    } else if |b| == 2 {
      assert b == [b[0], b[1]];
      ScanTwo(b[0], b[1]);
    } else if |b| > 2 {
      ScanEncode(b[3..]);
      ScanQuad(b[0], b[1], b[2], Encode(b[3..]));
      assert b == [b[0]] + ([b[1]] + ([b[2]] + b[3..]));
    }
  }

  lemma {:induction false} EncodeShape(b: seq<Byte>)
    ensures |Encode(b)| == (|b| + 2) / 3 * 4
    ensures forall c :: c in Encode(b) ==> c < 128 as char
  {
    forall d: nat | d < 64
      ensures Symbol(d) < 128 as char
    {
      DigitOfSymbol(d);
    }
    if |b| > 2 {
      EncodeShape(b[3..]);
    }
  }

  lemma DecodeEncode(b: seq<Byte>)
    ensures Decode(Encode(b)) == Some(b)
  {
    ScanEncode(b);
    EncodeShape(b);
  }
}
