/** `fencode` and `fdecode` with their loops, proved against the functions that specify them. */
module CodecLoops {
  import opened Contacts
  import opened Base64
  import opened Codec

  // ---------- encoding ----------

  lemma {:induction false} ElemsSnoc(elems: seq<Value>, i: nat)
    requires i < |elems|
    ensures ElemsEncoding(elems[..i + 1]) == Append(ElemsEncoding(elems[..i]), Encoding(elems[i], true))
  {
    if i == 0 {
      assert elems[..1] == [elems[0]] && elems[..1][1..] == [];
      EmptyEnds(Encoding(elems[0], true));
    } else {
      var a, b := elems[..i], elems[..i + 1];
      assert a[0] == b[0] == elems[0];
      assert a[1..] == elems[1..][..i - 1] && b[1..] == elems[1..][..i];
      ElemsSnoc(elems[1..], i - 1);
      AppendAssociative(Encoding(elems[0], true), ElemsEncoding(a[1..]), Encoding(elems[i], true));
    }
  }

  lemma {:induction false} ItemsSnoc(items: seq<Item>, i: nat)
    requires i < |items|
    ensures ItemsEncoding(items[..i + 1]) == Append(ItemsEncoding(items[..i]), ItemEncoding(items[i]))
  {
    if i == 0 {
      assert items[..1] == [items[0]] && items[..1][1..] == [];
      EmptyEnds(ItemEncoding(items[0]));
    } else {
      var a, b := items[..i], items[..i + 1];
      assert a[0] == b[0] == items[0];
      assert a[1..] == items[1..][..i - 1] && b[1..] == items[1..][..i];
      ItemsSnoc(items[1..], i - 1);
      AppendAssociative(ItemEncoding(items[0]), ItemsEncoding(a[1..]), ItemEncoding(items[i]));
    }
  }

  lemma EmptyEnds(a: Option<string>)
    ensures Append(a, Some("")) == a && Append(Some(""), a) == a
  {
    if a.Some? {
      assert a.value + "" == a.value && "" + a.value == a.value;
    }
  }

  lemma AppendAssociative(a: Option<string>, b: Option<string>, c: Option<string>)
    ensures Append(Append(a, b), c) == Append(a, Append(b, c))
  {
    if a.Some? && b.Some? && c.Some? {
      assert a.value + b.value + c.value == a.value + (b.value + c.value);
    }
  }

  // What does not encode keeps everything that contains it from encoding.
  lemma {:induction false} ElemsFail(elems: seq<Value>, i: nat)
    requires i <= |elems| && ElemsEncoding(elems[..i]) == None
    ensures ElemsEncoding(elems) == None
    decreases |elems| - i
  {
    if i < |elems| {
      ElemsSnoc(elems, i);
      ElemsFail(elems, i + 1);
    } else {
      assert elems[..i] == elems;
    }
  }

  lemma {:induction false} ItemsFail(items: seq<Item>, i: nat)
    requires i <= |items| && ItemsEncoding(items[..i]) == None
    ensures ItemsEncoding(items) == None
    decreases |items| - i
  {
    if i < |items| {
      ItemsSnoc(items, i);
      ItemsFail(items, i + 1);
    } else {
      assert items[..i] == items;
    }
  }

  method FencodeElems(elems: seq<Value>) returns (contents: Option<string>)
    ensures contents == ElemsEncoding(elems)
    decreases elems, 0
  {
    contents := Some("");
    var i := 0;
    while i < |elems|
      invariant 0 <= i <= |elems|
      invariant contents.Some? && contents == ElemsEncoding(elems[..i])
    {
      var e := Fencode(elems[i], true);
      ElemsSnoc(elems, i);
      contents := Append(contents, e);
      i := i + 1;
      if contents.None? {
        ElemsFail(elems, i);
        return;
      }
    }
    assert elems[..i] == elems;
  }

  method FencodeItems(items: seq<Item>) returns (contents: Option<string>)
    ensures contents == ItemsEncoding(items)
    decreases items, 0
  {
    contents := Some("");
    var i := 0;
    while i < |items|
      invariant 0 <= i <= |items|
      invariant contents.Some? && contents == ItemsEncoding(items[..i])
    {
      var e := FencodeItem(items[i]);
      ItemsSnoc(items, i);
      contents := Append(contents, e);
      i := i + 1;
      if contents.None? {
        ItemsFail(items, i);
        return;
      }
    }
    assert items[..i] == items;
  }

  method FencodeItem(item: Item) returns (e: Option<string>)
    ensures e == ItemEncoding(item)
    decreases item, 0
  {
    var k := Fencode(item.key, true);
    var v := Fencode(item.value, true);
    e := Append(k, v);
  }

  method Fencode(v: Value, lenField: bool) returns (r: Option<string>)
    ensures r == Encoding(v, lenField)
    decreases v, 0
  {
    var contents;
    match v {
      case Nil => contents := Some("0");
      case Bool(b) => contents := Some(IntText(if b then 1 else 0)[1..]);
      case Int(i) => contents := Some(IntText(i)[1..]);
      case Bytes(b) => contents := Some(Encode(b));
      case Str(b) => contents := Some(Encode(b));
      case Dict(items) => contents := FencodeItems(items);
      case List(elems) => contents := FencodeElems(elems);
      case Tuple(elems) => contents := FencodeElems(elems);
      case Fencoded(data) => contents := Some(data);
    }
    r := if contents.None? then None else Frame(Tag(v), contents.value, lenField);
  }

  // ---------- decoding ----------

  method ScanValue(val: string, r: Recurse) returns (v: Option<(Value, nat)>)
    ensures v == ScanVal(val, r)
    decreases |val|, 1
  {
    if val == "" {
      return None;
    }
    var n := GetLen(Slice(val, 1, 4));
    if n.None? {
      return None;
    }
    var value := Fdecode(Slice(val, 0, 4 + n.value), true, r);
    v := if value.None? then None else Some((value.value, 4 + n.value));
  }

  method FdecodeElems(text: string, r: Recurse) returns (result: Option<seq<Value>>)
    ensures result == DecodeElems(text, [], r)
    decreases |text|, 2
  {
    var val, values: seq<Value> := text, [];
    while val != ""
      invariant |val| <= |text|
      invariant DecodeElems(val, values, r) == DecodeElems(text, [], r)
      decreases |val|
    {
      var v := ScanValue(val, r);
      if v.None? {
        return None;
      }
      values := values + [v.value.0];
      val := From(val, v.value.1);
    }
    result := Some(values);
  }

  // One turn of the loop over the entries of a dict.
  lemma ItemsTurn(val: string, items: seq<Item>, r: Recurse)
    requires val != ""
    ensures DecodeItems(val, items, r) ==
            match ScanVal(val, r)
            case None => None
            case Some((key, l1)) =>
              match ScanVal(From(val, l1), r)
              case None => None
              case Some((value, l2)) =>
                if !Hashable(key) then None
                else DecodeItems(From(val, l1 + l2), SetItem(items, key, value), r)
  {
    hide ScanVal, SetItem, Hashable, From;
  }

  lemma ScanAdvances(val: string, r: Recurse)
    ensures match ScanVal(val, r) case None => true case Some((_, l1)) => l1 > 0
  {
  }

  lemma ItemsEnd(items: seq<Item>, r: Recurse)
    ensures DecodeItems("", items, r) == Some(items)
  {
  }

  method FdecodeItems(text: string, r: Recurse) returns (result: Option<seq<Item>>)
    ensures result == DecodeItems(text, [], r)
    decreases |text|, 2
  {
    hide DecodeItems, ScanVal, Hashable, SetItem;
    var val, items: seq<Item> := text, [];
    while val != ""
      invariant |val| <= |text|
      invariant DecodeItems(val, items, r) == DecodeItems(text, [], r)
      decreases |val|
    {
      ItemsTurn(val, items, r);
      ScanAdvances(val, r);
      var key := ScanValue(val, r);
      if key.None? {
        return None;
      }
      var value := ScanValue(From(val, key.value.1), r);
      if value.None? || !Hashable(key.value.0) {
        return None;
      }
      items := SetItem(items, key.value.0, value.value.0);
      val := From(val, key.value.1 + value.value.1);
    }
    ItemsEnd(items, r);
    result := Some(items);
  }

  method Fdecode(d: string, lenField: bool, r: Recurse) returns (v: Option<Value>)
    ensures v == Decoding(d, lenField, r)
    decreases |d|, 0
  {
    hide DecodeElems, DecodeItems, DecodeInt, Decode, IsUtf8, GetLen, Slice;
    if d == "" {
      return None;
    }
    var val := d[1..];
    if lenField {
      if GetLen(Slice(d, 1, 4)).None? {
        return None;
      }
      val := From(d, 4);
    }
    match d[0] {
      case 'd' =>
        var items := FdecodeItems(val, r);
        v := if items.None? then None else Some(Dict(items.value));
      case 'l' =>
        var elems := FdecodeElems(val, r);
        v := if elems.None? then None else Some(List(elems.value));
      case 't' =>
        var elems := FdecodeElems(val, r);
        v := if elems.None? then None else Some(Tuple(elems.value));
      case 'f' =>
        if Positive(Next(r)) {
          v := Fdecode(val, false, Next(r));
        } else {
          v := Some(Fencoded(val));
        }
      case _ =>
        v := DecodeContents(d[0], val, r);
    }
  }
}
