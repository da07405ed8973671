/** What base64 text looks like (RFC 4648), and what its decoder makes of other texts. */
module Base64Text {
  import opened Contacts
  import opened Base64

  // ---------- the text itself ----------

  // A group of three bytes as a number of 24 bits.
  function Joined(x: int, y: int, z: int): int
  {
    x * 0x1_0000 + y * 0x100 + z
  }

  // The `j`-th six bits of such a number, counted from the left.
  function SixBits(n: int, j: nat): (d: nat)
    ensures d < 64
  {
    if j == 0 then n / 0x4_0000 % 64 else if j == 1 then n / 0x1000 % 64
    else if j == 2 then n / 64 % 64 else n % 64
  }

  function ByteAt(b: seq<Byte>, i: nat): int
  {
    if i < |b| then b[i] else 0
  }

  lemma HighBits(x: int, y: int, z: int)
    requires 0 <= x < 256 && 0 <= y < 256 && 0 <= z < 256
    ensures SixBits(Joined(x, y, z), 0) == x / 4
    ensures SixBits(Joined(x, y, z), 1) == x % 4 * 16 + y / 16
  {
    var n := Joined(x, y, z);
    assert n / 0x4_0000 == x / 4;
    assert n / 0x1000 == x * 16 + y / 16;
  }

  lemma LowBits(x: int, y: int, z: int)
    requires 0 <= x < 256 && 0 <= y < 256 && 0 <= z < 256
    ensures SixBits(Joined(x, y, z), 2) == y % 16 * 4 + z / 64
    ensures SixBits(Joined(x, y, z), 3) == z % 64
  {
    var n := Joined(x, y, z);
    assert n / 64 == x * 1024 + y * 4 + z / 64;
  }

  // Section 4 of RFC 4648: of every three bytes, zeros standing for those that are missing, each six
  // bits become a symbol, and a symbol that stands for no byte at all is written as padding.
  lemma {:induction false} EncodedAt(b: seq<Byte>, i: nat)
    requires i < |Encode(b)|
    ensures var k, j := i / 4 * 3, i % 4;
            && k < |b|
            && Encode(b)[i] ==
                 if k + j > |b| then '='
                 else Symbol(SixBits(Joined(b[k], ByteAt(b, k + 1), ByteAt(b, k + 2)), j))
    decreases |b|
  {
    hide Joined, SixBits, Symbol;
    if |b| >= 3 && i >= 4 {
      var t := b[3..];
      EncodedAt(t, i - 4);
      assert Encode(b)[i] == Encode(t)[i - 4];
      assert (i - 4) / 4 == i / 4 - 1 && (i - 4) % 4 == i % 4;
    } else if b != [] {
      FirstGroup(b, i);
    }
  }

  lemma FirstGroup(b: seq<Byte>, i: nat)
    requires b != [] && i < 4
    ensures i < |Encode(b)|
    ensures Encode(b)[i] == if i > |b| then '='
                            else Symbol(SixBits(Joined(b[0], ByteAt(b, 1), ByteAt(b, 2)), i))
  {
    hide Joined, SixBits, Symbol;
    HighBits(b[0], ByteAt(b, 1), ByteAt(b, 2));
    LowBits(b[0], ByteAt(b, 1), ByteAt(b, 2));
  }

  lemma {:induction false} EncodeAppend(a: seq<Byte>, b: seq<Byte>)
    requires |a| % 3 == 0
    ensures Encode(a + b) == Encode(a) + Encode(b)
  {
    if a == [] {
      assert a + b == b;
    } else {
      assert (a + b)[3..] == a[3..] + b;
      EncodeAppend(a[3..], b);
      if |b| == 0 {
        assert a + b == a;
      }
    }
  }

  function EightFrom(d: nat): string
    requires d + 8 <= 64
  {
    [Symbol(d), Symbol(d + 1), Symbol(d + 2), Symbol(d + 3),
     Symbol(d + 4), Symbol(d + 5), Symbol(d + 6), Symbol(d + 7)]
  }

  // The alphabet of section 5 of RFC 4648, in the order of the values of its symbols.
  lemma SymbolsInOrder()
    ensures EightFrom(0) == "ABCDEFGH" && EightFrom(8) == "IJKLMNOP"
    ensures EightFrom(16) == "QRSTUVWX" && EightFrom(24) == "YZabcdef"
    ensures EightFrom(32) == "ghijklmn" && EightFrom(40) == "opqrstuv"
    ensures EightFrom(48) == "wxyz0123" && EightFrom(56) == "456789-_"
  {
  }

  // Test vectors of section 10 of RFC 4648: "f", "fo", "foo" and "foobar".
  lemma TestVectors()
    ensures Encode([]) == "" && Encode([102]) == "Zg==" && Encode([102, 111]) == "Zm8="
    ensures Encode([102, 111, 111]) == "Zm9v"
    ensures Encode([102, 111, 111, 98, 97, 114]) == "Zm9vYmFy"
  {
    var foo, bar: seq<Byte> := [102, 111, 111], [98, 97, 114];
    assert Encode([]) == "";
    assert Encode(foo) == Quad(102, 111, 111) + Encode(foo[3..]) == "Zm9v";
    assert Encode(bar) == Quad(98, 97, 114) + Encode(bar[3..]) == "YmFy";
    EncodeAppend(foo, bar);
    assert foo + bar == [102, 111, 111, 98, 97, 114];
  }

  // ---------- texts that are no encodings ----------

  // Characters outside the alphabet are skipped wherever they stand.
  lemma {:induction false} ForeignSkipped(s: string, c: char, t: string, quad: nat, left: nat, pads: nat)
    requires quad < 4
    requires left < (if quad == 0 then 1 else if quad == 1 then 64 else if quad == 2 then 16 else 4)
    requires DigitOf(c).None? && c != '='
    ensures Scan(s + [c] + t, quad, left, pads) == Scan(s + t, quad, left, pads)
    decreases |s|
  {
    if s == "" {
      assert (s + [c] + t)[1..] == t && s + t == t;
    } else {
      var u := s[1..];
      assert (s + [c] + t)[1..] == u + [c] + t && (s + t)[1..] == u + t;
      if s[0] == '=' {
        if quad < 2 || quad + pads + 1 < 4 {
          ForeignSkipped(u, c, t, quad, left, if quad < 2 then pads else pads + 1);
        }
      } else if DigitOf(s[0]).None? {
        ForeignSkipped(u, c, t, quad, left, pads);
      } else {
        DigitBound(s[0]);
        var d := DigitOf(s[0]).value;
        ForeignSkipped(u, c, t, (quad + 1) % 4,
                       if quad == 0 then d else if quad == 1 then d % 16 else if quad == 2 then d % 4
                       else 0, 0);
      }
    }
  }

  lemma DecodeSkips(s: string, c: char, t: string)
    requires DigitOf(c).None? && c != '=' && c < 128 as char
    ensures Decode(s + [c] + t) == Decode(s + t)
  {
    ForeignSkipped(s, c, t, 0, 0, 0);
    assert (forall x :: x in s + [c] + t ==> x < 128 as char) <==> (forall x :: x in s + t ==> x < 128 as char) by {
      forall x
        ensures x in s + [c] + t <==> x in s + t || x == c
      {
        assert x in s + [c] + t <==> x in s || x in [c] || x in t;
      }
    }
  }

  // The symbols of the standard alphabet stand for the same bits; text beyond ASCII and a group of
  // one symbol are errors.
  lemma OtherTexts(c: char)
    ensures DigitOf('+') == DigitOf('-') == Some(62) && DigitOf('/') == DigitOf('_') == Some(63)
    ensures c >= 128 as char ==> Decode([c]) == None
    ensures DigitOf(c).Some? ==> Decode([c]) == None
  {
    assert c in [c];
    if DigitOf(c).Some? {
      DigitBound(c);
      assert Scan([c], 0, 0, 0) == Scan([c][1..], 1, DigitOf(c).value, 0);
    }
  }
}
