/** The texts that values are encoded as, and texts that are read although nothing encodes to them. */
module CodecText {
  import opened Contacts
  import opened Base64
  import opened Codec
  import opened CodecLaws
  import opened Accounting

  // ---------- numbers ----------

  // A number takes an even count of bytes, at least two, and no more than it needs.
  lemma EvenCount(n: nat)
    ensures |EvenDigits(n)| >= 2 && |EvenDigits(n)| % 2 == 0
    ensures |EvenDigits(n)| > 2 ==> EvenDigits(n)[0] != 0 || EvenDigits(n)[1] != 0
  {
    NoLeadingZero(n);
  }

  lemma {:induction false} NoLeadingZero(n: nat)
    ensures |Digits(n)| >= 1 && (|Digits(n)| > 1 ==> Digits(n)[0] != 0)
    ensures n > 0 ==> Digits(n)[0] != 0
  {
    if n >= 256 {
      NoLeadingZero(n / 256);
    }
  }

  lemma SmallDigits(n: nat)
    requires n < 0x1_0000
    ensures EvenDigits(n) == [n / 256, n % 256]
  {
    if n >= 256 {
      assert Digits(n / 256) == [n / 256];
      assert Digits(n) == [n / 256] + [n % 256];
    }
  }

  // The length fields that the documentation of `makeLen` gives, the second one in the alphabet that
  // is used.
  lemma KnownLengths()
    ensures MakeLen(1) == "AAE" && MakeLen(4) == "AAQ" && MakeLen(255) == "AP8" && MakeLen(65535) == "__8"
  {
    SmallDigits(1);
    SmallDigits(4);
    SmallDigits(255);
    SmallDigits(65535);
  }

  // ---------- the letters ----------

  // A text is the letter and the contents, with the length between them inside another value.
  lemma Written(v: Value, contents: string, text: string)
    requires Contents(v) == Some(contents) && text == [Tag(v)] + contents
    ensures Encoding(v, false) == Some(text)
  {
  }

  lemma WrittenInside(v: Value, contents: string, length: string, text: string)
    requires Contents(v) == Some(contents) && |contents| <= MAX_LEN && MakeLen(|contents|) == length
    requires text == [Tag(v)] + length + contents
    ensures Encoding(v, true) == Some(text)
  {
  }

  lemma NumberText(n: nat, digits: seq<Byte>, code: string)
    requires EvenDigits(n) == digits && Encode(digits) == code
    ensures Contents(Int(n)) == Some(code) && Contents(Int(0 - n)) == Some(code)
  {
    hide EvenDigits, Encode;
    assert IntText(n)[1..] == code && IntText(0 - n)[1..] == code;
  }

  lemma SmallNumbers()
    ensures Contents(Int(1)) == Some("AAE=") && Contents(Bool(true)) == Some("AAE=")
    ensures Contents(Int(5)) == Some("AAU=") && Contents(Int(-5)) == Some("AAU=")
  {
    SmallDigits(1);
    NumberText(1, [0, 1], "AAE=");
    SmallDigits(5);
    NumberText(5, [0, 5], "AAU=");
  }

  lemma KnownNumbers()
    ensures Encoding(Int(5), false) == Some("oAAU=") && Encoding(Int(-5), false) == Some("OAAU=")
    ensures Encoding(Bool(true), false) == Some("oAAE=") && Encoding(Int(1), true) == Some("oAAQAAE=")
  {
    SmallNumbers();
    KnownLengths();
    hide Contents, MakeLen;
    Written(Int(5), "AAU=", "oAAU=");
    Written(Int(-5), "AAU=", "OAAU=");
    Written(Bool(true), "AAE=", "oAAE=");
    WrittenInside(Int(1), "AAE=", "AAQ", "oAAQAAE=");
  }

  // The letter says whether a number fits into 31 bits, and its case says the sign.
  lemma LargestSmallNumber()
    ensures Encoding(Int(0x7FFF_FFFF), false) == Some("of____w==")
  {
    FourDigits(0x7FFF_FFFF);
    LargestEncoded();
    NumberText(0x7FFF_FFFF, [0x7F, 0xFF, 0xFF, 0xFF], "f____w==");
    hide EvenDigits, Encode, Contents;
    Written(Int(0x7FFF_FFFF), "f____w==", "of____w==");
  }

  lemma LargeContents()
    ensures Contents(Int(0x8000_0000)) == Some("gAAAAA==")
    ensures Contents(Int(-0x8000_0000)) == Some("gAAAAA==")
  {
    FourDigits(0x8000_0000);
    SmallestEncoded();
    hide EvenDigits, Encode;
    NumberText(0x8000_0000, [0x80, 0, 0, 0], "gAAAAA==");
  }

  lemma SmallestLargeNumber()
    ensures Encoding(Int(0x8000_0000), false) == Some("igAAAAA==")
    ensures Encoding(Int(-0x8000_0000), false) == Some("IgAAAAA==")
  {
    hide Contents, Encoding;
    LargeContents();
    Written(Int(0x8000_0000), "gAAAAA==", "igAAAAA==");
    Written(Int(-0x8000_0000), "gAAAAA==", "IgAAAAA==");
  }

  lemma LargestEncoded()
    ensures Encode([0x7F, 0xFF, 0xFF, 0xFF]) == "f____w=="
  {
    var a: seq<Byte> := [0x7F, 0xFF, 0xFF, 0xFF];
    assert a[3..] == [0xFF];
    assert Encode(a) == Quad(0x7F, 0xFF, 0xFF) + Encode([0xFF]);
  }

  lemma SmallestEncoded()
    ensures Encode([0x80, 0, 0, 0]) == "gAAAAA=="
  {
    var b: seq<Byte> := [0x80, 0, 0, 0];
    assert b[3..] == [0];
    assert Encode(b) == Quad(0x80, 0, 0) + Encode([0]);
  }

  lemma FourDigits(n: nat)
    requires 0x100_0000 <= n < 0x1_0000_0000
    ensures EvenDigits(n) == [n / 0x100_0000, n / 0x1_0000 % 256, n / 0x100 % 256, n % 256]
  {
    var a, b, c := n / 0x100, n / 0x1_0000, n / 0x100_0000;
    assert a / 256 == b && b / 256 == c;
    assert Digits(c) == [c];
    assert Digits(b) == Digits(c) + [b % 256];
    assert Digits(a) == Digits(b) + [a % 256];
    assert Digits(n) == Digits(a) + [n % 256];
  }

  lemma KnownNone()
    ensures Encoding(Nil, false) == Some("n0") && Encoding(Nil, true) == Some("nAAE0")
    ensures Encoding(Fencoded("n0"), false) == Some("fn0")
  {
    KnownLengths();
    hide Encode, MakeLen;
    Written(Nil, "0", "n0");
    WrittenInside(Nil, "0", "AAE", "nAAE0");
    Written(Fencoded("n0"), "n0", "fn0");
  }

  // `a` is the text "a", one byte of the value 97.
  lemma KnownTexts(a: seq<Byte>)
    requires a == [97]
    ensures Encoding(Str(a), false) == Some("sYQ==") && Encoding(Bytes(a), false) == Some("bYQ==")
  {
    assert Encode(a) == "YQ==";
    hide Encode;
    Written(Str(a), "YQ==", "sYQ==");
    Written(Bytes(a), "YQ==", "bYQ==");
  }

  lemma KnownInside(a: seq<Byte>)
    requires a == [97]
    ensures Encoding(Str(a), true) == Some("sAAQYQ==")
  {
    KnownLengths();
    assert Encode(a) == "YQ==";
    hide Encode, MakeLen, Encoding;
    WrittenInside(Str(a), "YQ==", "AAQ", "sAAQYQ==");
  }

  // Containers write their parts one behind the other, ...
  lemma KnownList(a: seq<Byte>)
    requires a == [97]
    ensures Encoding(List([Int(1), Str(a)]), false) == Some("loAAQAAE=sAAQYQ==")
  {
    KnownNumbers();
    KnownInside(a);
    hide ElemsEncoding, ItemsEncoding, Encoding;
    var both := "oAAQAAE=sAAQYQ==";
    TwoParts(Int(1), Str(a), "oAAQAAE=", "sAAQYQ==", both);
    var text := "loAAQAAE=sAAQYQ==";
    assert text == ['l'] + both;
    Written(List([Int(1), Str(a)]), both, text);
  }

  // ... a tuple like a list, ...
  lemma TupleLikeList(elems: seq<Value>)
    ensures match Encoding(List(elems), false)
            case None => Encoding(Tuple(elems), false) == None
            case Some(s) => s != "" && s[0] == 'l' && Encoding(Tuple(elems), false) == Some("t" + s[1..])
  {
    if ElemsEncoding(elems).Some? {
      var c := ElemsEncoding(elems).value;
      Written(List(elems), c, ['l'] + c);
      Written(Tuple(elems), c, ['t'] + c);
      assert (['l'] + c)[1..] == c && "t" + c == ['t'] + c;
    }
  }

  // ... a dict every key before its value.
  lemma KnownDict(a: seq<Byte>)
    requires a == [97]
    ensures Encoding(Dict([Item(Str(a), Int(1))]), false) == Some("dsAAQYQ==oAAQAAE=")
  {
    KnownNumbers();
    KnownInside(a);
    hide ElemsEncoding, ItemsEncoding, Encoding;
    TwoParts(Str(a), Int(1), "sAAQYQ==", "oAAQAAE=", "sAAQYQ==oAAQAAE=");
    Written(Dict([Item(Str(a), Int(1))]), "sAAQYQ==oAAQAAE=", "dsAAQYQ==oAAQAAE=");
  }

  lemma TwoParts(v: Value, w: Value, s: string, t: string, both: string)
    requires Encoding(v, true) == Some(s) && Encoding(w, true) == Some(t) && both == s + t
    ensures ElemsEncoding([v, w]) == Some(both)
    ensures ItemsEncoding([Item(v, w)]) == Some(both)
  {
    hide Encoding;
    assert [v, w][1..] == [w] && [w][1..] == [] && [Item(v, w)][1..] == [];
    assert t + "" == t && s + t + "" == s + t;
    assert ElemsEncoding([]) == Some("") && ItemsEncoding([]) == Some("");
    assert ElemsEncoding([w]) == Some(t + "");
    assert ItemEncoding(Item(v, w)) == Some(s + t);
  }

  // ---------- other texts ----------

  // A number is read alike after either letter of its sign.
  lemma EitherLetter(val: string, r: Recurse)
    ensures DecodeContents('i', val, r) == DecodeContents('o', val, r)
    ensures DecodeContents('I', val, r) == DecodeContents('O', val, r)
    ensures DecodeContents('i', val, r).Some? <==> DecodeContents('I', val, r).Some?
    ensures DecodeContents('i', val, r).Some? ==>
              exists n: int :: DecodeContents('i', val, r) == Some(Int(n))
                               && DecodeContents('I', val, r) == Some(Int(-n))
  {
    if DecodeContents('i', val, r).Some? {
      var n := FromBytes(Decode(Pad(val)).value);
      assert DecodeContents('i', val, r) == Some(Int(n));
    }
  }

  // No text, and no other letter, is an encoding; None is read whatever follows its letter.
  lemma NoEncoding(d: string, r: Recurse)
    ensures Decoding("", false, r) == None && Decoding("", true, r) == None
    ensures d != "" && d[0] !in {'i', 'I', 'o', 'O', 's', 'b', 'd', 'l', 't', 'f', 'n'} ==>
              Decoding(d, false, r) == None && Decoding(d, true, r) == None
    ensures d != "" && d[0] == 'n' ==> Decoding(d, false, r) == Some(Nil)
  {
  }

  // The length in front of a value is read but not compared with what follows, ...
  lemma LengthIgnored(tag: char, a: string, b: string, contents: string, r: Recurse)
    requires |a| == 3 && |b| == 3 && GetLen(a).Some? && GetLen(b).Some?
    ensures Decoding([tag] + a + contents, true, r) == Decoding([tag] + b + contents, true, r)
  {
    FrameParts(tag, a, contents);
    FrameParts(tag, b, contents);
  }

  lemma FrameParts(tag: char, a: string, contents: string)
    requires |a| == 3
    ensures var d := [tag] + a + contents;
            d != "" && d[0] == tag && Slice(d, 1, 4) == a && From(d, 4) == contents
  {
  }

  // ... and one that reaches beyond the end of the text takes what there is.
  lemma OverlongLength(val: string, r: Recurse)
    requires val != "" && GetLen(Slice(val, 1, 4)).Some?
    requires 4 + GetLen(Slice(val, 1, 4)).value >= |val|
    ensures match ScanVal(val, r)
            case None => Decoding(val, true, r) == None
            case Some((v, l)) => Decoding(val, true, r) == Some(v) && From(val, l) == ""
  {
    assert val[0..] == val;
    assert val[..|val|] == val;
  }

  lemma PlainScanned(v: Value, s: string, rest: string)
    requires Plain(v) && Encoding(v, true) == Some(s)
    ensures s != "" && ScanVal(s + rest, Levels(1)) == Some((v, |s|)) && From(s + rest, |s|) == rest
  {
    FrameScanned(v, s, rest, Levels(1));
    ContentsRoundTrip(v, Contents(v).value, Levels(1));
    UnwrapPlain(v, Levels(1));
  }

  lemma PairDecoded(key: Value, value: Value, k: string, s: string, rest: string, acc: seq<Item>)
    requires Plain(key) && Hashable(key) && Encoding(key, true) == Some(k)
    requires Plain(value) && Encoding(value, true) == Some(s)
    ensures DecodeItems(k + (s + rest), acc, Levels(1))
         == DecodeItems(rest, SetItem(acc, key, value), Levels(1))
  {
    hide Encoding, Plain, Hashable, ScanVal, From, SetItem;
    PlainScanned(key, k, s + rest);
    PlainScanned(value, s, rest);
    BehindBoth(k, s, rest);
    PairStep(k + (s + rest), key, |k|, value, |s|, acc);
  }

  lemma BehindBoth(k: string, s: string, rest: string)
    requires k != ""
    ensures k + (s + rest) != "" && From(k + (s + rest), |k| + |s|) == rest
  {
  }

  lemma PairStep(val: string, key: Value, l1: nat, value: Value, l2: nat, acc: seq<Item>)
    requires val != "" && Hashable(key)
    requires ScanVal(val, Levels(1)) == Some((key, l1))
    requires ScanVal(From(val, l1), Levels(1)) == Some((value, l2))
    ensures DecodeItems(val, acc, Levels(1))
         == DecodeItems(From(val, l1 + l2), SetItem(acc, key, value), Levels(1))
  {
    hide ScanVal, From, SetItem, Hashable;
  }

  // Of a key that stands twice in the text of a dict the last value counts.
  lemma LastValueCounts(key: Value, v: Value, w: Value, k: string, s: string, t: string)
    requires Plain(key) && Hashable(key) && Encoding(key, true) == Some(k)
    requires Plain(v) && Encoding(v, true) == Some(s)
    requires Plain(w) && Encoding(w, true) == Some(t)
    ensures Decoding(['d'] + (k + (s + (k + (t + "")))), false, Levels(1)) == Some(Dict([Item(key, w)]))
  {
    hide Encoding, Plain, Hashable, Decoding, DecodeContents;
    PairDecoded(key, v, k, s, k + (t + ""), []);
    PairDecoded(key, w, k, t, "", SetItem([], key, v));
    assert SetItem(SetItem([], key, v), key, w) == [Item(key, w)];
    NothingLeft([Item(key, w)]);
    hide DecodeItems, SetItem;
    DictDecoded(k + (s + (k + (t + ""))), [Item(key, w)]);
  }

  lemma NothingLeft(acc: seq<Item>)
    ensures DecodeItems("", acc, Levels(1)) == Some(acc)
  {
  }

  lemma DictDecoded(text: string, items: seq<Item>)
    requires DecodeItems(text, [], Levels(1)) == Some(items)
    ensures Decoding(['d'] + text, false, Levels(1)) == Some(Dict(items))
  {
    hide DecodeItems;
    assert (['d'] + text)[1..] == text;
  }
}
