/** What decoding gives back: round trips, framing, and the peeling of nested encodings. */
module CodecLaws {
  import opened Contacts
  import opened Base64
  import opened Codec

  // ---------- the values a Python program can hold ----------

  // Booleans are encoded as the integers they are.
  function Norm(v: Value): Value
  {
    match v
    case Bool(b) => Int(if b then 1 else 0)
    case Dict(items) => Dict(NormItems(items))
    case List(elems) => List(NormElems(elems))
    case Tuple(elems) => Tuple(NormElems(elems))
    case _ => v
  }

  function NormElems(elems: seq<Value>): seq<Value>
  {
    if elems == [] then [] else [Norm(elems[0])] + NormElems(elems[1..])
  }

  function NormItems(items: seq<Item>): seq<Item>
  {
    if items == [] then [] else [NormItem(items[0])] + NormItems(items[1..])
  }

  function NormItem(item: Item): Item
  {
    Item(Norm(item.key), Norm(item.value))
  }

  // Text is well-formed; the keys of a dict are hashable and pairwise different, where Python
  // takes True for 1.
  ghost predicate WellFormed(v: Value)
  {
    match v
    case Str(b) => IsUtf8(b)
    case Dict(items) => WellFormedItems(items) && DistinctKeys(items)
    case List(elems) => WellFormedElems(elems)
    case Tuple(elems) => WellFormedElems(elems)
    case _ => true
  }

  ghost predicate WellFormedElems(elems: seq<Value>)
  {
    elems == [] || (WellFormed(elems[0]) && WellFormedElems(elems[1..]))
  }

  ghost predicate WellFormedItems(items: seq<Item>)
  {
    items == [] || (WellFormedItem(items[0]) && WellFormedItems(items[1..]))
  }

  ghost predicate WellFormedItem(item: Item)
  {
    WellFormed(item.key) && Hashable(item.key) && WellFormed(item.value)
  }

  ghost predicate DistinctKeys(items: seq<Item>)
  {
    forall i, j :: 0 <= i < j < |items| ==> Norm(items[i].key) != Norm(items[j].key)
  }

  // ---------- what decoding to a given depth means ----------

  // The value with booleans as integers, and every nested encoding decoded as far as `r` allows.
  function Unwrap(v: Value, r: Recurse): Option<Value>
    decreases v
  {
    match v
    case Bool(b) => Some(Int(if b then 1 else 0))
    case Dict(items) =>
      (match UnwrapItems(items, r) case None => None case Some(u) => Some(Dict(u)))
    case List(elems) =>
      (match UnwrapElems(elems, r) case None => None case Some(u) => Some(List(u)))
    case Tuple(elems) =>
      (match UnwrapElems(elems, r) case None => None case Some(u) => Some(Tuple(u)))
    case Fencoded(data) => if Positive(Next(r)) then Decoding(data, false, Next(r)) else Some(v)
    case _ => Some(v)
  }

  function UnwrapElems(elems: seq<Value>, r: Recurse): Option<seq<Value>>
  {
    if elems == [] then Some([])
    else match Unwrap(elems[0], r)
      case None => None
      case Some(u) => Prepend(u, UnwrapElems(elems[1..], r))
  }

  function UnwrapItems(items: seq<Item>, r: Recurse): Option<seq<Item>>
  {
    if items == [] then Some([])
    else match UnwrapItem(items[0], r)
      case None => None
      case Some(u) => Prepend(u, UnwrapItems(items[1..], r))
  }

  function UnwrapItem(item: Item, r: Recurse): Option<Item>
  {
    match Unwrap(item.value, r) case None => None case Some(u) => Some(Item(Norm(item.key), u))
  }

  function Prepend<T>(x: T, rest: Option<seq<T>>): Option<seq<T>>
  {
    match rest case None => None case Some(s) => Some([x] + s)
  }

  // ---------- frames ----------

  lemma PadEncoded(b: seq<Byte>)
    ensures Pad(Encode(b)) == Encode(b)
  {
  }

  // A length-prefixed value at the head of any text is read back up to its end, and not beyond.
  lemma FrameScanned(v: Value, s: string, rest: string, r: Recurse)
    requires Encoding(v, true) == Some(s)
    ensures Contents(v).Some? && s != ""
    ensures Decoding(s, true, r) == DecodeContents(Tag(v), Contents(v).value, r)
    ensures ScanVal(s + rest, r) ==
            match DecodeContents(Tag(v), Contents(v).value, r)
            case None => None
            case Some(w) => Some((w, |s|))
    ensures From(s + rest, |s|) == rest
  {
    var c := Contents(v).value;
    LenRoundTrip(|c|);
    var t := s + rest;
    assert s == [Tag(v)] + MakeLen(|c|) + c;
    assert Slice(s, 1, 4) == MakeLen(|c|) && From(s, 4) == c;
    assert Slice(t, 1, 4) == MakeLen(|c|);
    assert Slice(t, 0, 4 + |c|) == s;
  }

  lemma PlainDecoded(v: Value, s: string, r: Recurse)
    requires Encoding(v, false) == Some(s)
    ensures Contents(v).Some?
    ensures Decoding(s, false, r) == DecodeContents(Tag(v), Contents(v).value, r)
  {
  }

  // ---------- keys ----------

  lemma {:induction false} HashableUnwrapped(v: Value, r: Recurse)
    requires Hashable(v)
    ensures Unwrap(v, r) == Some(Norm(v)) && Hashable(Norm(v))
    decreases v, 0
  {
    if v.Tuple? {
      HashableElems(v.elems, r);
    }
  }

  lemma {:induction false} HashableElems(elems: seq<Value>, r: Recurse)
    requires forall i :: 0 <= i < |elems| ==> Hashable(elems[i])
    ensures UnwrapElems(elems, r) == Some(NormElems(elems))
    ensures |NormElems(elems)| == |elems| && forall i :: 0 <= i < |elems| ==> Hashable(NormElems(elems)[i])
    decreases elems, 1
  {
    if elems != [] {
      HashableUnwrapped(elems[0], r);
      assert forall i :: 0 <= i < |elems[1..]| ==> elems[1..][i] == elems[i + 1];
      HashableElems(elems[1..], r);
    }
  }

  // No entry of `acc` has this key.
  ghost predicate NewKey(acc: seq<Item>, key: Value)
  {
    forall i :: 0 <= i < |acc| ==> acc[i].key != key
  }

  lemma {:induction false} SetNewItem(acc: seq<Item>, key: Value, value: Value)
    requires NewKey(acc, key)
    ensures SetItem(acc, key, value) == acc + [Item(key, value)]
  {
    if acc != [] {
      assert forall i :: 0 <= i < |acc[1..]| ==> acc[1..][i] == acc[i + 1];
      SetNewItem(acc[1..], key, value);
      assert acc == [acc[0]] + acc[1..];
    }
  }

  // ---------- the round trip ----------

  lemma {:induction false} ContentsRoundTrip(v: Value, c: string, r: Recurse)
    requires WellFormed(v) && Contents(v) == Some(c)
    ensures DecodeContents(Tag(v), c, r) == Unwrap(v, r)
    decreases v, 0
  {
    hide Encoding, Norm, DecodeElems, DecodeItems, UnwrapElems, UnwrapItems, Encode, Decode;
    match v {
      case Nil =>
      case Bool(b) =>
        IntRoundTrip(if b then 1 else 0, r);
      case Int(i) =>
        IntRoundTrip(i, r);
      case Bytes(b) =>
        PadEncoded(b);
        DecodeEncode(b);
      case Str(b) =>
        PadEncoded(b);
        DecodeEncode(b);
      case Dict(items) =>
        AllItemsRoundTrip(items, c, r);
      case List(elems) =>
        AllElemsRoundTrip(elems, c, r);
      case Tuple(elems) =>
        AllElemsRoundTrip(elems, c, r);
      case Fencoded(data) =>
    }
  }

  lemma IntRoundTrip(i: int, r: Recurse)
    ensures DecodeContents(IntLetter(i), IntText(i)[1..], r) == Some(Int(i))
  {
    var n: nat := if i < 0 then -i else i;
    assert IntText(i)[1..] == Encode(EvenDigits(n));
    PadEncoded(EvenDigits(n));
    DecodeEncode(EvenDigits(n));
    FromEvenDigits(n);
  }

  lemma {:induction false} AllElemsRoundTrip(elems: seq<Value>, c: string, r: Recurse)
    requires WellFormedElems(elems) && ElemsEncoding(elems) == Some(c)
    ensures DecodeElems(c, [], r) == UnwrapElems(elems, r)
    decreases elems, 2
  {
    ElemsRoundTrip(elems, c, [], r);
    if UnwrapElems(elems, r).Some? {
      assert [] + UnwrapElems(elems, r).value == UnwrapElems(elems, r).value;
    }
  }

  lemma {:induction false} AllItemsRoundTrip(items: seq<Item>, c: string, r: Recurse)
    requires WellFormedItems(items) && DistinctKeys(items) && ItemsEncoding(items) == Some(c)
    ensures DecodeItems(c, [], r) == UnwrapItems(items, r)
    decreases items, 2
  {
    ItemsRoundTrip(items, c, [], r);
    if UnwrapItems(items, r).Some? {
      assert [] + UnwrapItems(items, r).value == UnwrapItems(items, r).value;
    }
  }

  // Concatenated frames split back into exactly the sequence they were made from.
  lemma {:induction false} ElemsRoundTrip(elems: seq<Value>, c: string, acc: seq<Value>, r: Recurse)
    requires WellFormedElems(elems) && ElemsEncoding(elems) == Some(c)
    ensures DecodeElems(c, acc, r) ==
            match UnwrapElems(elems, r) case None => None case Some(u) => Some(acc + u)
    decreases elems, 1
  {
    if elems == [] {
      assert acc + [] == acc;
    } else {
      var s, rest := Encoding(elems[0], true).value, ElemsEncoding(elems[1..]).value;
      FrameScanned(elems[0], s, rest, r);
      ContentsRoundTrip(elems[0], Contents(elems[0]).value, r);
      if Unwrap(elems[0], r).Some? {
        var u := Unwrap(elems[0], r).value;
        ElemsRoundTrip(elems[1..], rest, acc + [u], r);
        if UnwrapElems(elems[1..], r).Some? {
          var us := UnwrapElems(elems[1..], r).value;
          assert acc + [u] + us == acc + ([u] + us);
        }
      }
    }
  }

  lemma {:induction false} ItemsRoundTrip(items: seq<Item>, c: string, acc: seq<Item>, r: Recurse)
    requires WellFormedItems(items) && DistinctKeys(items) && ItemsEncoding(items) == Some(c)
    requires forall i :: 0 <= i < |items| ==> NewKey(acc, Norm(items[i].key))
    ensures DecodeItems(c, acc, r) ==
            match UnwrapItems(items, r) case None => None case Some(u) => Some(acc + u)
    decreases items, 1
  {
    if items == [] {
      assert acc + [] == acc;
    } else {
      var item, rest := items[0], ItemsEncoding(items[1..]).value;
      var k, s := Encoding(item.key, true).value, Encoding(item.value, true).value;
      hide DecodeItems, UnwrapItems, NewKey;
      ItemScanned(item, k, s, rest, c, r);
      HashableUnwrapped(item.key, r);
      ItemsUnwrapped(items, acc, r);
      if Unwrap(item.value, r).Some? {
        var u := Item(Norm(item.key), Unwrap(item.value, r).value);
        KeysStayNew(items, acc, u);
        ItemsRoundTrip(items[1..], rest, acc + [u], r);
        ItemsStep(c, |k|, |s|, rest, acc, u, r);
      } else {
        ItemsStuck(c, Norm(item.key), |k|, acc, r);
      }
    }
  }

  // The first entry and the others.
  lemma ItemsUnwrapped(items: seq<Item>, acc: seq<Item>, r: Recurse)
    requires items != []
    ensures match Unwrap(items[0].value, r)
            case None => UnwrapItems(items, r) == None
            case Some(w) =>
              var u := Item(Norm(items[0].key), w);
              match UnwrapItems(items[1..], r)
              case None => UnwrapItems(items, r) == None
              case Some(us) => UnwrapItems(items, r) == Some([u] + us) && acc + [u] + us == acc + ([u] + us)
  {
  }

  lemma KeysStayNew(items: seq<Item>, acc: seq<Item>, u: Item)
    requires items != [] && DistinctKeys(items) && u.key == Norm(items[0].key)
    requires forall i :: 0 <= i < |items| ==> NewKey(acc, Norm(items[i].key))
    ensures NewKey(acc, u.key) && DistinctKeys(items[1..])
    ensures forall i :: 0 <= i < |items[1..]| ==> NewKey(acc + [u], Norm(items[1..][i].key))
  {
  }

  lemma ItemsStuck(c: string, key: Value, l1: nat, acc: seq<Item>, r: Recurse)
    requires c != "" && ScanVal(c, r) == Some((key, l1)) && ScanVal(From(c, l1), r) == None
    ensures DecodeItems(c, acc, r) == None
  {
  }

  // One turn of the decoding loop over the entries of a dict.
  lemma ItemsStep(c: string, l1: nat, l2: nat, rest: string, acc: seq<Item>, u: Item, r: Recurse)
    requires c != "" && ScanVal(c, r) == Some((u.key, l1))
    requires ScanVal(From(c, l1), r) == Some((u.value, l2)) && From(c, l1 + l2) == rest
    requires Hashable(u.key) && NewKey(acc, u.key)
    ensures DecodeItems(c, acc, r) == DecodeItems(rest, acc + [u], r)
  {
    SetNewItem(acc, u.key, u.value);
  }

  // The two frames of a dict entry are read one after the other.
  lemma {:induction false} ItemScanned(item: Item, k: string, s: string, rest: string, c: string, r: Recurse)
    requires WellFormedItem(item)
    requires Encoding(item.key, true) == Some(k) && Encoding(item.value, true) == Some(s)
    requires c == k + s + rest
    ensures c != "" && From(c, |k| + |s|) == rest
    ensures ScanVal(c, r) == match Unwrap(item.key, r) case None => None case Some(w) => Some((w, |k|))
    ensures ScanVal(From(c, |k|), r) ==
            match Unwrap(item.value, r) case None => None case Some(w) => Some((w, |s|))
    decreases item, 0
  {
    hide Decoding, DecodeContents, Unwrap, Encoding, ScanVal, WellFormed;
    assert c == k + (s + rest);
    FrameScanned(item.key, k, s + rest, r);
    ContentsRoundTrip(item.key, Contents(item.key).value, r);
    FrameScanned(item.value, s, rest, r);
    ContentsRoundTrip(item.value, Contents(item.value).value, r);
    assert From(c, |k|) == s + rest;
  }

  // Decoding an encoded value, with or without the length prefix, gives the value back with its
  // nested encodings peeled as far as asked.
  lemma RoundTrip(v: Value, lenField: bool, s: string, r: Recurse)
    requires WellFormed(v) && Encoding(v, lenField) == Some(s)
    ensures Decoding(s, lenField, r) == Unwrap(v, r)
  {
    if lenField {
      FrameScanned(v, s, "", r);
    } else {
      PlainDecoded(v, s, r);
    }
    ContentsRoundTrip(v, Contents(v).value, r);
  }

  // ---------- consequences ----------

  // Without leave to peel, decoding gives the value itself, booleans read as integers.
  lemma {:induction false} UnwrapPlain(v: Value, r: Recurse)
    requires !Positive(Next(r))
    ensures Unwrap(v, r) == Some(Norm(v))
    decreases v, 0
  {
    match v {
      case Dict(items) => UnwrapPlainItems(items, r);
      case List(elems) => UnwrapPlainElems(elems, r);
      case Tuple(elems) => UnwrapPlainElems(elems, r);
      case _ =>
    }
  }

  lemma {:induction false} UnwrapPlainElems(elems: seq<Value>, r: Recurse)
    requires !Positive(Next(r))
    ensures UnwrapElems(elems, r) == Some(NormElems(elems))
    decreases elems, 1
  {
    if elems != [] {
      UnwrapPlain(elems[0], r);
      UnwrapPlainElems(elems[1..], r);
    }
  }

  lemma {:induction false} UnwrapPlainItems(items: seq<Item>, r: Recurse)
    requires !Positive(Next(r))
    ensures UnwrapItems(items, r) == Some(NormItems(items))
    decreases items, 1
  {
    if items != [] {
      UnwrapPlainItem(items[0], r);
      UnwrapPlainItems(items[1..], r);
    }
  }

  lemma {:induction false} UnwrapPlainItem(item: Item, r: Recurse)
    requires !Positive(Next(r))
    ensures UnwrapItem(item, r) == Some(NormItem(item))
    decreases item, 0
  {
    UnwrapPlain(item.value, r);
  }

  // The law the doctests promise: what was encoded is decoded.
  lemma DecodesWhatWasEncoded(v: Value, s: string)
    requires WellFormed(v) && Encoding(v, false) == Some(s)
    ensures Decoding(s, false, Levels(1)) == Some(Norm(v))
  {
    RoundTrip(v, false, s, Levels(1));
    UnwrapPlain(v, Levels(1));
  }

  // Different values have different encodings.
  lemma EncodingInjective(v: Value, w: Value)
    requires WellFormed(v) && WellFormed(w)
    requires Encoding(v, false).Some? && Encoding(v, false) == Encoding(w, false)
    ensures Norm(v) == Norm(w)
  {
    DecodesWhatWasEncoded(v, Encoding(v, false).value);
    DecodesWhatWasEncoded(w, Encoding(w, false).value);
  }
}
