/** What decoding can give: only values that decoding gives back unchanged. */
module Decoded {
  import opened Contacts
  import opened Codec
  import opened CodecLaws
  import opened Accounting

  ghost predicate PlainElems(elems: seq<Value>)
  {
    forall i :: 0 <= i < |elems| ==> Plain(elems[i])
  }

  lemma {:induction false} PlainParts(elems: seq<Value>)
    requires PlainElems(elems)
    ensures WellFormedElems(elems) && NormElems(elems) == elems
  {
    if elems != [] {
      assert Plain(elems[0]);
      assert forall i :: 0 <= i < |elems[1..]| ==> elems[1..][i] == elems[i + 1];
      PlainParts(elems[1..]);
      assert elems == [elems[0]] + elems[1..];
    }
  }

  // Whatever text is decoded, however deep: strings are well-formed, keys are hashable and
  // different, and there are integers but no booleans.
  lemma {:induction false} DecodingPlain(d: string, lenField: bool, r: Recurse)
    ensures Decoding(d, lenField, r).Some? ==> Plain(Decoding(d, lenField, r).value)
    decreases |d|, 0
  {
    if d != "" {
      ContentsPlain(d[0], if lenField then From(d, 4) else d[1..], r);
    }
  }

  lemma {:induction false} ContentsPlain(tag: char, val: string, r: Recurse)
    ensures DecodeContents(tag, val, r).Some? ==> Plain(DecodeContents(tag, val, r).value)
    decreases |val|, 3
  {
    if tag == 'd' {
      ItemsPlain(val, [], r);
      if DecodeItems(val, [], r).Some? {
        PlainDict(DecodeItems(val, [], r).value);
      }
    } else if tag == 'l' || tag == 't' {
      ElemsPlain(val, [], r);
      if DecodeElems(val, [], r).Some? {
        PlainParts(DecodeElems(val, [], r).value);
      }
    } else if tag == 'f' && Positive(Next(r)) {
      DecodingPlain(val, false, Next(r));
    }
  }

  lemma {:induction false} ScanPlain(val: string, r: Recurse)
    ensures ScanVal(val, r).Some? ==> Plain(ScanVal(val, r).value.0) && ScanVal(val, r).value.1 >= 4
    decreases |val|, 1
  {
    if val != "" && GetLen(Slice(val, 1, 4)).Some? {
      DecodingPlain(Slice(val, 0, 4 + GetLen(Slice(val, 1, 4)).value), true, r);
    }
  }

  lemma Shorter(s: string, i: nat)
    requires s != "" && i > 0
    ensures |From(s, i)| < |s|
  {
  }

  lemma {:induction false} ElemsPlain(val: string, acc: seq<Value>, r: Recurse)
    requires PlainElems(acc)
    ensures DecodeElems(val, acc, r).Some? ==> PlainElems(DecodeElems(val, acc, r).value)
    decreases |val|, 2
  {
    if val != "" && ScanVal(val, r).Some? {
      var (v, l) := ScanVal(val, r).value;
      ScanPlain(val, r);
      ElemsPlain(From(val, l), acc + [v], r);
    }
  }

  lemma {:induction false} ItemsPlain(val: string, acc: seq<Item>, r: Recurse)
    requires PlainItems(acc)
    ensures DecodeItems(val, acc, r).Some? ==> PlainItems(DecodeItems(val, acc, r).value)
    decreases |val|, 2
  {
    hide PlainItems, Plain, SetItem, Hashable, ScanVal, From;
    ScanPlain(val, r);
    if val != "" && ScanVal(val, r).Some? {
      var (key, l1) := ScanVal(val, r).value;
      Shorter(val, l1);
      ScanPlain(From(val, l1), r);
      if ScanVal(From(val, l1), r).Some? && Hashable(key) {
        var (value, l2) := ScanVal(From(val, l1), r).value;
        Shorter(val, l1 + l2);
        SetItemPlain(acc, key, value);
        ItemsPlain(From(val, l1 + l2), SetItem(acc, key, value), r);
      }
    }
  }
}
