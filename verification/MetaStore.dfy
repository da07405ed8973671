/** The value files of a node: what it writes for a stored value and what it answers from them. */
module MetaStore {
  import opened Contacts
  import opened Codec
  import opened CodecLaws
  import opened Decoded

  // Decodes the text from the request and writes it encoded again.  None where the handler raises.
  function HandleMetaPut(val: string): Option<string>
  {
    match Decoding(val, false, Levels(1)) case None => None case Some(md) => Encoding(md, false)
  }

  // The answer is the stored text, decoded and encoded once more.
  function HandleMetaGet(data: string): Option<string>
  {
    match Decoding(data, false, Levels(1)) case None => None case Some(d) => Encoding(d, false)
  }

  // ---------- encoding does not see the difference between booleans and integers ----------

  lemma {:induction false} NormContents(v: Value)
    ensures Contents(Norm(v)) == Contents(v) && Tag(Norm(v)) == Tag(v)
    decreases v, 0
  {
    match v {
      case Dict(items) => NormItemsEncoding(items);
      case List(elems) => NormElemsEncoding(elems);
      case Tuple(elems) => NormElemsEncoding(elems);
      case _ =>
    }
  }

  lemma {:induction false} NormElemsEncoding(elems: seq<Value>)
    ensures ElemsEncoding(NormElems(elems)) == ElemsEncoding(elems)
    decreases elems, 1
  {
    if elems != [] {
      NormContents(elems[0]);
      NormElemsEncoding(elems[1..]);
      assert NormElems(elems)[1..] == NormElems(elems[1..]);
    }
  }

  lemma {:induction false} NormItemsEncoding(items: seq<Item>)
    ensures ItemsEncoding(NormItems(items)) == ItemsEncoding(items)
    decreases items, 1
  {
    if items != [] {
      NormItemEncoding(items[0]);
      NormItemsEncoding(items[1..]);
      assert NormItems(items)[1..] == NormItems(items[1..]);
    }
  }

  lemma {:induction false} NormItemEncoding(item: Item)
    ensures ItemEncoding(NormItem(item)) == ItemEncoding(item)
    decreases item, 0
  {
    NormContents(item.key);
    NormContents(item.value);
  }

  // A node stores exactly the text that was sent and answers exactly the text it stored.
  lemma StoredTextUnchanged(v: Value, s: string)
    requires WellFormed(v) && Encoding(v, false) == Some(s)
    ensures HandleMetaPut(s) == Some(s) && HandleMetaGet(s) == Some(s)
  {
    DecodesWhatWasEncoded(v, s);
    NormContents(v);
  }

  // Whatever text is accepted, however it was made: what is stored and what is answered decode to
  // the value that the text decodes to.
  lemma StoredValueUnchanged(val: string)
    ensures HandleMetaPut(val).Some? ==>
      var s := HandleMetaPut(val).value;
      && Decoding(s, false, Levels(1)) == Decoding(val, false, Levels(1))
      && HandleMetaGet(s) == Some(s)
    ensures HandleMetaPut(val).Some?
        <==> Decoding(val, false, Levels(1)).Some?
             && Encoding(Decoding(val, false, Levels(1)).value, false).Some?
  {
    DecodingPlain(val, false, Levels(1));
    if HandleMetaPut(val).Some? {
      DecodesWhatWasEncoded(Decoding(val, false, Levels(1)).value, HandleMetaPut(val).value);
    }
  }
}
