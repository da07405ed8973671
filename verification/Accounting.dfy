/** Python dictionaries of the codec's values: the accounting of a block file. */
module Accounting {
  import opened Contacts
  import opened Codec
  import opened CodecLaws

  // A value that decoding gives back unchanged.
  ghost predicate Plain(v: Value)
  {
    WellFormed(v) && Norm(v) == v
  }

  ghost predicate PlainItem(item: Item)
  {
    Plain(item.key) && Hashable(item.key) && Plain(item.value)
  }

  ghost predicate UniqueKeys(items: seq<Item>)
  {
    forall i, j :: 0 <= i < j < |items| ==> items[i].key != items[j].key
  }

  ghost predicate PlainItems(items: seq<Item>)
  {
    (forall i :: 0 <= i < |items| ==> PlainItem(items[i])) && UniqueKeys(items)
  }

  lemma {:induction false} PlainParts(items: seq<Item>)
    requires forall i :: 0 <= i < |items| ==> PlainItem(items[i])
    ensures WellFormedItems(items) && NormItems(items) == items
  {
    if items != [] {
      assert PlainItem(items[0]);
      assert forall i :: 0 <= i < |items[1..]| ==> items[1..][i] == items[i + 1];
      PlainParts(items[1..]);
      assert items == [items[0]] + items[1..];
    }
  }

  lemma PlainDict(items: seq<Item>)
    requires PlainItems(items)
    ensures Plain(Dict(items))
  {
    PlainParts(items);
    forall i, j | 0 <= i < j < |items|
      ensures Norm(items[i].key) != Norm(items[j].key)
    {
      assert PlainItem(items[i]) && PlainItem(items[j]);
    }
  }

  lemma {:induction false} PartsPlain(items: seq<Item>)
    requires WellFormedItems(items) && NormItems(items) == items
    ensures forall i :: 0 <= i < |items| ==> PlainItem(items[i])
  {
    if items != [] {
      assert NormItems(items)[0] == NormItem(items[0]) && NormItems(items)[1..] == NormItems(items[1..]);
      PartsPlain(items[1..]);
      assert forall i :: 1 <= i < |items| ==> items[i] == items[1..][i - 1];
    }
  }

  lemma DictPlain(items: seq<Item>)
    requires Plain(Dict(items))
    ensures PlainItems(items)
  {
    PartsPlain(items);
    forall i, j | 0 <= i < j < |items|
      ensures items[i].key != items[j].key
    {
      assert Norm(items[i].key) != Norm(items[j].key);
    }
  }

  // ---------- lookup, update, removal ----------

  function Get(items: seq<Item>, key: Value): Option<Value>
  {
    if items == [] then None
    else if items[0].key == key then Some(items[0].value)
    else Get(items[1..], key)
  }

  function Pop(items: seq<Item>, key: Value): seq<Item>
  {
    if items == [] then []
    else if items[0].key == key then items[1..]
    else [items[0]] + Pop(items[1..], key)
  }

  // `for key in meta: d[key] = meta[key]`
  function Update(items: seq<Item>, meta: seq<Item>): seq<Item>
    decreases |meta|
  {
    if meta == [] then items else Update(SetItem(items, meta[0].key, meta[0].value), meta[1..])
  }

  lemma {:induction false} SetItemShape(items: seq<Item>, key: Value, value: Value)
    ensures |SetItem(items, key, value)| >= |items|
    ensures forall i :: 0 <= i < |items| ==>
              SetItem(items, key, value)[i].key == items[i].key &&
              (items[i].key != key ==> SetItem(items, key, value)[i] == items[i])
    ensures forall i :: 0 <= i < |SetItem(items, key, value)| ==>
              SetItem(items, key, value)[i] == Item(key, value) ||
              (i < |items| && SetItem(items, key, value)[i] == items[i])
    ensures |SetItem(items, key, value)| > |items| ==> NewKey(items, key)
    ensures |SetItem(items, key, value)| <= |items| + 1
  {
    if items != [] && items[0].key != key {
      SetItemShape(items[1..], key, value);
      assert forall i :: 1 <= i < |items| ==> items[i] == items[1..][i - 1];
    }
  }

  lemma SetItemPlain(items: seq<Item>, key: Value, value: Value)
    requires PlainItems(items) && PlainItem(Item(key, value))
    ensures PlainItems(SetItem(items, key, value))
  {
    SetItemShape(items, key, value);
    var r := SetItem(items, key, value);
    forall i, j | 0 <= i < j < |r|
      ensures r[i].key != r[j].key
    {
      if j >= |items| {
        assert NewKey(items, key) && r[j] == Item(key, value);
        assert r[i].key == items[i].key;
      }
    }
  }

  lemma {:induction false} PopPlain(items: seq<Item>, key: Value)
    requires PlainItems(items)
    ensures PlainItems(Pop(items, key))
    ensures forall x :: x in Pop(items, key) ==> x in items
  {
    if items != [] {
      var tail := items[1..];
      assert forall i :: 0 <= i < |tail| ==> tail[i] == items[i + 1];
      if items[0].key != key {
        PopPlain(tail, key);
        var r := Pop(tail, key);
        assert forall i :: 0 <= i < |r| ==> r[i] in tail;
      }
    }
  }

  lemma {:induction false} UpdatePlain(items: seq<Item>, meta: seq<Item>)
    requires PlainItems(items) && PlainItems(meta)
    ensures PlainItems(Update(items, meta))
    decreases |meta|
  {
    if meta != [] {
      assert PlainItem(meta[0]);
      SetItemPlain(items, meta[0].key, meta[0].value);
      assert forall i :: 0 <= i < |meta[1..]| ==> meta[1..][i] == meta[i + 1];
      UpdatePlain(SetItem(items, meta[0].key, meta[0].value), meta[1..]);
    }
  }

  lemma {:induction false} GetPlain(items: seq<Item>, key: Value)
    requires PlainItems(items)
    ensures Get(items, key).Some? ==> Plain(Get(items, key).value)
  {
    if items != [] {
      assert PlainItem(items[0]);
      assert forall i :: 0 <= i < |items[1..]| ==> items[1..][i] == items[i + 1];
      GetPlain(items[1..], key);
    }
  }

  // ---------- the laws of a dictionary ----------

  lemma {:induction false} GetSet(items: seq<Item>, key: Value, value: Value, other: Value)
    ensures Get(SetItem(items, key, value), other) == if other == key then Some(value) else Get(items, other)
  {
    if items != [] && items[0].key != key {
      GetSet(items[1..], key, value, other);
    }
  }

  lemma {:induction false} GetPop(items: seq<Item>, key: Value, other: Value)
    requires UniqueKeys(items)
    ensures Get(Pop(items, key), other) == if other == key then None else Get(items, other)
  {
    if items != [] {
      var tail := items[1..];
      assert forall i :: 0 <= i < |tail| ==> tail[i] == items[i + 1];
      if items[0].key == key {
        GetNone(tail, key);
      } else {
        GetPop(tail, key, other);
      }
    }
  }

  lemma {:induction false} GetNone(items: seq<Item>, key: Value)
    requires NewKey(items, key)
    ensures Get(items, key) == None
  {
    if items != [] {
      assert forall i :: 0 <= i < |items[1..]| ==> items[1..][i] == items[i + 1];
      GetNone(items[1..], key);
    }
  }

  lemma {:induction false} GetUpdate(items: seq<Item>, meta: seq<Item>, other: Value)
    requires UniqueKeys(meta)
    ensures Get(Update(items, meta), other) ==
            if Get(meta, other).Some? then Get(meta, other) else Get(items, other)
    decreases |meta|
  {
    if meta != [] {
      var tail := meta[1..];
      assert forall i :: 0 <= i < |tail| ==> tail[i] == meta[i + 1];
      GetUpdate(SetItem(items, meta[0].key, meta[0].value), tail, other);
      GetSet(items, meta[0].key, meta[0].value, other);
      if other == meta[0].key {
        GetNone(tail, other);
      }
    }
  }
}
