/** The typed, length-prefixed text encoding of values, and its decoder. */
module Codec {
  import opened Contacts
  import opened Base64

  // A string is represented by its UTF-8 bytes.  A dict keeps the order of insertion.
  datatype Value =
    | Nil
    | Bool(b: bool)
    | Int(i: int)
    | Bytes(bytes: seq<Byte>)
    | Str(utf8: seq<Byte>)
    | Dict(items: seq<Item>)
    | List(elems: seq<Value>)
    | Tuple(elems: seq<Value>)
    | Fencoded(data: string)

  datatype Item = Item(key: Value, value: Value)

  // ---------- numbers as bytes ----------

  // The shortest big-endian form; zero takes one byte.
  function Digits(n: nat): seq<Byte>
  {
    if n < 256 then [n] else Digits(n / 256) + [n % 256]
  }

  // ... brought to an even number of bytes.
  function EvenDigits(n: nat): seq<Byte>
  {
    var d := Digits(n);
    if |d| % 2 != 0 then [0] + d else d
  }

  function FromBytes(b: seq<Byte>): nat
  {
    if b == [] then 0 else FromBytes(b[..|b| - 1]) * 256 + b[|b| - 1]
  }

  lemma {:induction false} FromDigits(n: nat)
    ensures FromBytes(Digits(n)) == n
  {
    if n >= 256 {
      FromDigits(n / 256);
      assert Digits(n)[..|Digits(n)| - 1] == Digits(n / 256);
    } else {
      assert Digits(n)[..0] == [];
    }
  }

  lemma {:induction false} LeadingZero(b: seq<Byte>)
    ensures FromBytes([0] + b) == FromBytes(b)
  {
    if b == [] {
      assert [0] + b == [0];
      assert FromBytes([0]) == FromBytes([0][..0]) * 256 + 0;
    } else {
      LeadingZero(b[..|b| - 1]);
      assert ([0] + b)[..|b|] == [0] + b[..|b| - 1];
    }
  }

  lemma FromEvenDigits(n: nat)
    ensures FromBytes(EvenDigits(n)) == n
  {
    FromDigits(n);
    LeadingZero(Digits(n));
  }

  // ---------- length fields ----------

  function IntText(i: int): string
  {
    var n: nat := if i < 0 then -i else i;
    [IntLetter(i)] + Encode(EvenDigits(n))
  }

  // Small and large numbers have different letters, negative ones the upper-case letter.
  function IntLetter(i: int): char
  {
    if i > 0x7FFF_FFFF then 'i' else if i >= 0 then 'o' else if i >= -0x7FFF_FFFF then 'O' else 'I'
  }

  const MAX_LEN: nat := 65535

  // The three characters between the letter and the padding of a two-byte number.
  function MakeLen(n: nat): (s: string)
    requires n <= MAX_LEN
  {
    LenShape(n);
    var s := IntText(n);
    s[1..|s| - 1]
  }

  lemma LenShape(n: nat)
    requires n <= MAX_LEN
    ensures |EvenDigits(n)| == 2
    ensures |IntText(n)| == 5 && IntText(n)[4] == '='
  {
    if n >= 256 {
      assert Digits(n) == [n / 256] + [n % 256];
    }
    assert |EvenDigits(n)| == 2;
  }

  function GetLen(s: string): Option<nat>
  {
    if |s| != 3 then None
    else match Decode(s + "=") case None => None case Some(b) => Some(FromBytes(b))
  }

  lemma LenRoundTrip(n: nat)
    requires n <= MAX_LEN
    ensures |MakeLen(n)| == 3 && GetLen(MakeLen(n)) == Some(n)
  {
    LenShape(n);
    var code := Encode(EvenDigits(n));
    assert MakeLen(n) + "=" == code;
    DecodeEncode(EvenDigits(n));
    FromEvenDigits(n);
  }

  // ---------- encoding ----------

  // The letter and the contents, with the length between them inside another value.
  function Frame(tag: char, contents: string, lenField: bool): Option<string>
  {
    if !lenField then Some([tag] + contents)
    else if |contents| > MAX_LEN then None
    else Some([tag] + MakeLen(|contents|) + contents)
  }

  // None where the source raises: some nested contents do not fit a length field.
  function Encoding(v: Value, lenField: bool): Option<string>
    decreases v, 1
  {
    match Contents(v) case None => None case Some(c) => Frame(Tag(v), c, lenField)
  }

  function Tag(v: Value): char
  {
    match v
    case Nil => 'n'
    case Bool(b) => 'o'
    case Int(i) => IntLetter(i)
    case Bytes(_) => 'b'
    case Str(_) => 's'
    case Dict(_) => 'd'
    case List(_) => 'l'
    case Tuple(_) => 't'
    case Fencoded(_) => 'f'
  }

  function Contents(v: Value): Option<string>
    decreases v, 0
  {
    match v
    case Nil => Some("0")
    case Bool(b) => Some(IntText(if b then 1 else 0)[1..])
    case Int(i) => Some(IntText(i)[1..])
    case Bytes(b) => Some(Encode(b))
    case Str(b) => Some(Encode(b))
    case Dict(items) => ItemsEncoding(items)
    case List(elems) => ElemsEncoding(elems)
    case Tuple(elems) => ElemsEncoding(elems)
    case Fencoded(data) => Some(data)
  }

  function Append(a: Option<string>, b: Option<string>): Option<string>
  {
    if a.Some? && b.Some? then Some(a.value + b.value) else None
  }

  function ElemsEncoding(elems: seq<Value>): Option<string>
    decreases elems, 0
  {
    if elems == [] then Some("")
    else Append(Encoding(elems[0], true), ElemsEncoding(elems[1..]))
  }

  function ItemsEncoding(items: seq<Item>): Option<string>
    decreases items, 0
  {
    if items == [] then Some("")
    else Append(ItemEncoding(items[0]), ItemsEncoding(items[1..]))
  }

  function ItemEncoding(item: Item): Option<string>
    decreases item, 0
  {
    Append(Encoding(item.key, true), Encoding(item.value, true))
  }

  // ---------- decoding ----------

  // How many layers of nested encodings to peel: a count, `True` or `False`.
  datatype Recurse = Levels(n: int) | All | Never

  function Next(r: Recurse): Recurse
  {
    if r.Levels? then Levels(r.n - 1) else r
  }

  predicate Positive(r: Recurse)
  {
    r.All? || (r.Levels? && r.n > 0)
  }

  // Python's slices: bounds beyond the end are cut off.
  function From(s: string, i: nat): string
  {
    if i <= |s| then s[i..] else ""
  }

  function Slice(s: string, i: nat, j: nat): string
    requires i <= j
  {
    if j <= |s| then s[i..j] else From(s, i)
  }

  function Pad(s: string): string
  {
    s + if |s| % 4 == 0 then "" else if |s| % 4 == 1 then "===" else if |s| % 4 == 2 then "==" else "="
  }

  // Well-formed UTF-8 (section 4 of RFC 3629).
  predicate IsUtf8(b: seq<Byte>)
  {
    if b == [] then true
    else if b[0] < 0x80 then IsUtf8(b[1..])
    else if 0xC2 <= b[0] <= 0xDF then |b| >= 2 && Follows(b[1], 0x80, 0xBF) && IsUtf8(b[2..])
    else if 0xE0 <= b[0] <= 0xEF then
      && |b| >= 3
      && Follows(b[1], if b[0] == 0xE0 then 0xA0 else 0x80, if b[0] == 0xED then 0x9F else 0xBF)
      && Follows(b[2], 0x80, 0xBF) && IsUtf8(b[3..])
    else if 0xF0 <= b[0] <= 0xF4 then
      && |b| >= 4
      && Follows(b[1], if b[0] == 0xF0 then 0x90 else 0x80, if b[0] == 0xF4 then 0x8F else 0xBF)
      && Follows(b[2], 0x80, 0xBF) && Follows(b[3], 0x80, 0xBF) && IsUtf8(b[4..])
    else false
  }

  predicate Follows(b: Byte, lo: Byte, hi: Byte)
  {
    lo <= b <= hi
  }

  // What Python can use as the key of a dict.
  predicate Hashable(v: Value)
  {
    match v
    case Tuple(elems) => forall i :: 0 <= i < |elems| ==> Hashable(elems[i])
    case Dict(_) => false
    case List(_) => false
    case Fencoded(_) => false
    case _ => true
  }

  // `result[key] = value`: a known key keeps its place.
  function SetItem(items: seq<Item>, key: Value, value: Value): seq<Item>
  {
    if items == [] then [Item(key, value)]
    else if items[0].key == key then [Item(key, value)] + items[1..]
    else [items[0]] + SetItem(items[1..], key, value)
  }

  function DecodeInt(val: string, negative: bool): Option<Value>
  {
    match Decode(Pad(val))
    case None => None
    case Some(b) => var n: int := FromBytes(b); Some(Int(if negative then -n else n))
  }

  function Decoding(d: string, lenField: bool, r: Recurse): Option<Value>
    decreases |d|, 0
  {
    if d == "" then None
    else if lenField then
      if GetLen(Slice(d, 1, 4)).None? then None else DecodeContents(d[0], From(d, 4), r)
    else DecodeContents(d[0], d[1..], r)
  }

  function DecodeContents(tag: char, val: string, r: Recurse): Option<Value>
    decreases |val|, 3
  {
    if tag == 'i' || tag == 'o' then DecodeInt(val, false)
    else if tag == 'I' || tag == 'O' then DecodeInt(val, true)
    else if tag == 's' then
      match Decode(Pad(val)) case None => None case Some(b) => if IsUtf8(b) then Some(Str(b)) else None
    else if tag == 'b' then
      match Decode(Pad(val)) case None => None case Some(b) => Some(Bytes(b))
    else if tag == 'd' then
      match DecodeItems(val, [], r) case None => None case Some(items) => Some(Dict(items))
    else if tag == 'l' then
      match DecodeElems(val, [], r) case None => None case Some(elems) => Some(List(elems))
    else if tag == 't' then
      match DecodeElems(val, [], r) case None => None case Some(elems) => Some(Tuple(elems))
    else if tag == 'f' then
      if Positive(Next(r)) then Decoding(val, false, Next(r)) else Some(Fencoded(val))
    else if tag == 'n' then Some(Nil)
    else None
  }

  // One length-prefixed value at the head of a text, and where it ends.
  function ScanVal(val: string, r: Recurse): Option<(Value, nat)>
    decreases |val|, 1
  {
    if val == "" then None
    else match GetLen(Slice(val, 1, 4))
      case None => None
      case Some(n) =>
        match Decoding(Slice(val, 0, 4 + n), true, r)
        case None => None
        case Some(v) => Some((v, 4 + n))
  }

  function DecodeElems(val: string, acc: seq<Value>, r: Recurse): Option<seq<Value>>
    decreases |val|, 2
  {
    if val == "" then Some(acc)
    else match ScanVal(val, r)
      case None => None
      case Some((v, l)) => DecodeElems(From(val, l), acc + [v], r)
  }

  function DecodeItems(val: string, acc: seq<Item>, r: Recurse): Option<seq<Item>>
    decreases |val|, 2
  {
    if val == "" then Some(acc)
    else match ScanVal(val, r)
      case None => None
      case Some((key, l1)) =>
        match ScanVal(From(val, l1), r)
        case None => None
        case Some((value, l2)) =>
          if !Hashable(key) then None else DecodeItems(From(val, l1 + l2), SetItem(acc, key, value), r)
  }
}
