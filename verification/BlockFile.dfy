/** The block file: data behind an eight-byte size, and the accounting behind the data. */
module BlockFiles {
  import opened Contacts
  import opened Base64
  import opened Codec
  import opened CodecLaws
  import opened Accounting
  import opened Decoded
  import opened Utf8

  // ---------- the header ----------

  const SIZE_LIMIT: nat := 0x1_0000_0000_0000_0000

  // `struct.pack('=Q', n)` on a little-endian machine.
  function PackBytes(n: nat, width: nat): seq<Byte>
  {
    if width == 0 then [] else [n % 256] + PackBytes(n / 256, width - 1)
  }

  function Unpack(b: seq<Byte>): nat
  {
    if b == [] then 0 else b[0] + 256 * Unpack(b[1..])
  }

  function Power256(n: nat): nat
  {
    if n == 0 then 1 else 256 * Power256(n - 1)
  }

  lemma {:induction false} UnpackPack(n: nat, width: nat)
    requires n < Power256(width)
    ensures |PackBytes(n, width)| == width && Unpack(PackBytes(n, width)) == n
  {
    if width > 0 {
      UnpackPack(n / 256, width - 1);
    }
  }

  lemma {:induction false} PackUnpack(b: seq<Byte>, width: nat)
    requires |b| == width
    ensures Unpack(b) < Power256(width) && PackBytes(Unpack(b), width) == b
  {
    if width > 0 {
      PackUnpack(b[1..], width - 1);
      assert b == [b[0]] + b[1..];
    }
  }

  function Pack(n: nat): (b: seq<Byte>)
    requires n < SIZE_LIMIT
    ensures |b| == 8 && Unpack(b) == n
  {
    assert Power256(8) == SIZE_LIMIT;
    UnpackPack(n, 8);
    PackBytes(n, 8)
  }

  // The least significant byte comes first.
  lemma HeaderBytes(n: nat)
    requires n < SIZE_LIMIT
    ensures Pack(n) == [n % 0x100, n / 0x100 % 0x100, n / 0x1_0000 % 0x100, n / 0x100_0000 % 0x100,
                        n / 0x1_0000_0000 % 0x100, n / 0x100_0000_0000 % 0x100,
                        n / 0x1_0000_0000_0000 % 0x100, n / 0x100_0000_0000_0000 % 0x100]
  {
    var d := n / 0x1_0000_0000;
    PackedFour(n);
    PackedFour(d);
    PackedAppend(n, 4, 4);
    hide PackBytes;
    assert d / 0x100 == n / 0x100_0000_0000;
    assert d / 0x1_0000 == n / 0x1_0000_0000_0000;
    assert d / 0x100_0000 == n / 0x100_0000_0000_0000;
  }

  lemma PackedFour(n: nat)
    ensures PackBytes(n, 4) == [n % 0x100, n / 0x100 % 0x100, n / 0x1_0000 % 0x100,
                                n / 0x100_0000 % 0x100]
    ensures Left(n, 4) == n / 0x1_0000_0000
  {
    var a, b, c := n / 0x100, n / 0x1_0000, n / 0x100_0000;
    assert a / 0x100 == b && b / 0x100 == c && c / 0x100 == n / 0x1_0000_0000;
    assert PackBytes(c, 1) == [c % 0x100] + PackBytes(c / 0x100, 0) == [c % 0x100];
    assert PackBytes(b, 2) == [b % 0x100] + PackBytes(c, 1);
    assert PackBytes(a, 3) == [a % 0x100] + PackBytes(b, 2);
    assert PackBytes(n, 4) == [n % 0x100] + PackBytes(a, 3);
    assert Left(c, 1) == Left(c / 0x100, 0) && Left(b, 2) == Left(c, 1) && Left(a, 3) == Left(b, 2);
  }

  // Packing into more bytes goes on with what is left.
  function Left(n: nat, width: nat): nat
  {
    if width == 0 then n else Left(n / 256, width - 1)
  }

  lemma {:induction false} PackedAppend(n: nat, width: nat, more: nat)
    ensures PackBytes(n, width + more) == PackBytes(n, width) + PackBytes(Left(n, width), more)
  {
    if width > 0 {
      PackedAppend(n / 256, width - 1, more);
    }
  }

  // Any eight bytes are the header of some size.
  lemma HeaderOf(b: seq<Byte>)
    requires |b| == 8
    ensures Unpack(b) < SIZE_LIMIT && Pack(Unpack(b)) == b
  {
    PackUnpack(b, 8);
    assert Power256(8) == SIZE_LIMIT;
  }

  // ---------- the layout ----------

  datatype Content = Content(data: seq<Byte>, accounting: seq<Item>)

  // What opening a file reads from it.  None where the source raises.
  function Parse(disk: seq<Byte>): Option<Content>
  {
    if |disk| < 8 then None
    else
      var dataend := 8 + Unpack(disk[..8]);
      if dataend > |disk| then None
      else match ToText(disk[dataend..])
        case None => None
        case Some(text) =>
          match Decoding(text, false, Levels(1))
          case Some(Dict(items)) => Some(Content(disk[8..dataend], items))
          case _ => None
  }

  predicate Storable(accounting: seq<Item>)
  {
    Encoding(Dict(accounting), false).Some?
  }

  function Layout(data: seq<Byte>, accounting: seq<Item>): seq<Byte>
    requires |data| < SIZE_LIMIT && Storable(accounting)
  {
    Pack(|data|) + data + ToBytes(Encoding(Dict(accounting), false).value)
  }

  // Reading what was laid out gives it back.
  lemma ParseLayout(data: seq<Byte>, accounting: seq<Item>)
    requires |data| < SIZE_LIMIT && Storable(accounting) && PlainItems(accounting)
    ensures Parse(Layout(data, accounting)) == Some(Content(data, accounting))
  {
    var text := Encoding(Dict(accounting), false).value;
    var disk := Layout(data, accounting);
    assert disk[..8] == Pack(|data|);
    assert disk[8..8 + |data|] == data;
    assert disk[8 + |data|..] == ToBytes(text);
    TextRoundTrip(text);
    PlainDict(accounting);
    DecodesWhatWasEncoded(Dict(accounting), text);
  }

  // The accounting of a file is always such that it is read back unchanged.
  lemma ParsedPlain(disk: seq<Byte>)
    ensures Parse(disk).Some? ==> PlainItems(Parse(disk).value.accounting)
  {
    if Parse(disk).Some? {
      var text := ToText(disk[8 + Unpack(disk[..8])..]).value;
      DecodingPlain(text, false, Levels(1));
      DictPlain(Parse(disk).value.accounting);
    }
  }

  // `convert`: an ordinary file becomes a block file with at most one entry, which is what opening
  // it then reads.
  method Convert(file: seq<Byte>, entry: Option<Item>) returns (disk: Option<seq<Byte>>)
    requires |file| < SIZE_LIMIT
    ensures var l := if entry.Some? then [entry.value] else [];
            && (disk.Some? <==>
                  (entry.Some? ==> entry.value.value.Dict? && Hashable(entry.value.key)) && Storable(l))
            && (disk.Some? && PlainItems(l) ==> Parse(disk.value) == Some(Content(file, l)))
            && (disk.Some? ==> disk.value == Layout(file, l))
  {
    var out := Pack(|file|) + file;
    var l: seq<Item> := [];
    if entry.Some? {
      if !entry.value.value.Dict? || !Hashable(entry.value.key) {
        return None;
      }
      l := SetItem(l, entry.value.key, entry.value.value);
    }
    if !Storable(l) {
      return None;
    }
    disk := Some(out + ToBytes(Encoding(Dict(l), false).value));
    if PlainItems(l) {
      ParseLayout(file, l);
    }
  }

  // ---------- the abstract file ----------

  datatype Abstract = Abstract(data: seq<Byte>, pos: nat, accounting: seq<Item>)

  datatype Op =
    | Seek(to: int)
    | Read(len: Option<int>)
    | Write(bytes: seq<Byte>)
    | AddNode(id: Value, meta: Value)
    | DelNode(id: Value, metakey: Value)

  datatype Output = Done | Got(bytes: seq<Byte>) | Raised

  function Clamp(x: int, lo: nat, hi: nat): nat
    requires lo <= hi
  {
    if x < lo then lo else if x > hi then hi else x
  }

  // The bytes at `pos` are replaced and the file grows when they reach beyond its end.
  function Overwrite(data: seq<Byte>, pos: nat, bytes: seq<Byte>): seq<Byte>
    requires pos <= |data|
  {
    data[..pos] + bytes + if pos + |bytes| <= |data| then data[pos + |bytes|..] else []
  }

  predicate Falsy(v: Value)
  {
    match v
    case Nil => true
    case Bool(b) => !b
    case Int(i) => i == 0
    case Bytes(b) => b == []
    case Str(b) => b == []
    case Dict(items) => items == []
    case List(elems) => elems == []
    case Tuple(elems) => elems == []
    case Fencoded(_) => false
  }

  // The accounting after adding a node.  None where the source raises.
  function Added(accounting: seq<Item>, id: Value, meta: Value): Option<seq<Item>>
  {
    if !Hashable(id) then None
    else match meta
      case Nil => Some(SetItem(accounting, id, Nil))
      case Dict(new') =>
        (match Get(accounting, id)
         case None => Some(SetItem(accounting, id, meta))
         case Some(Nil) => Some(SetItem(accounting, id, meta))
         case Some(Dict(have)) => Some(SetItem(accounting, id, Dict(Update(have, new'))))
         case _ => if new' == [] then Some(accounting) else None)
      case _ => None
  }

  // ... and after removing one, or one entry of its metadata.  Python looks up True where it finds
  // the key 1, and raises for a key that cannot be hashed.
  function Removed(accounting: seq<Item>, id: Value, metakey: Value): Option<seq<Item>>
  {
    if !Hashable(id) then None
    else RemovedKey(accounting, Norm(id), metakey)
  }

  function RemovedKey(accounting: seq<Item>, id: Value, metakey: Value): Option<seq<Item>>
  {
    match Get(accounting, id)
    case None => Some(accounting)
    case Some(m) =>
      if Falsy(metakey) then Some(Pop(accounting, id))
      else if !m.Dict? || !Hashable(metakey) then None
      else
        var left := Pop(m.items, Norm(metakey));
        Some(if left == [] then Pop(accounting, id) else SetItem(accounting, id, Dict(left)))
  }

  function Apply(a: Abstract, writable: bool, op: Op): (Abstract, Output)
    requires a.pos <= |a.data|
  {
    match op
    case Seek(to) => (a.(pos := Clamp(to, 0, |a.data|)), Done)
    case Read(len) =>
      var n := if len.None? then |a.data| - a.pos else Clamp(len.value, 0, |a.data| - a.pos);
      (a.(pos := a.pos + n), Got(a.data[a.pos..a.pos + n]))
    case Write(bytes) =>
      if !writable then (a, Raised)
      else (a.(data := Overwrite(a.data, a.pos, bytes), pos := a.pos + |bytes|), Done)
    case AddNode(id, meta) =>
      if !writable then (a, Raised)
      else (match Added(a.accounting, id, meta)
            case None => (a, Raised)
            case Some(acc) => (a.(accounting := acc), Done))
    case DelNode(id, metakey) =>
      if !writable then (a, Raised)
      else (match Removed(a.accounting, id, metakey)
            case None => (a, Raised)
            case Some(acc) => (a.(accounting := acc), Done))
  }

  function ApplyAll(a: Abstract, writable: bool, ops: seq<Op>): (r: (Abstract, seq<Output>))
    requires a.pos <= |a.data|
    ensures r.0.pos <= |r.0.data| && |r.1| == |ops|
  {
    if ops == [] then (a, [])
    else
      var (b, outs) := ApplyAll(a, writable, ops[..|ops| - 1]);
      var (c, out) := Apply(b, writable, ops[|ops| - 1]);
      (c, outs + [out])
  }

  // What is added holds integers rather than booleans, and well-formed text.
  ghost predicate PlainOp(op: Op)
  {
    match op
    case AddNode(id, meta) => Plain(id) && Plain(meta)
    case _ => true
  }

  lemma PlainNil()
    ensures Plain(Nil)
  {
  }

  lemma AddedPlain(accounting: seq<Item>, id: Value, meta: Value)
    requires PlainItems(accounting) && Plain(id) && Plain(meta)
    ensures Added(accounting, id, meta).Some? ==> PlainItems(Added(accounting, id, meta).value)
  {
    if !Hashable(id) {
      return;
    }
    PlainNil();
    SetItemPlain(accounting, id, meta);
    SetItemPlain(accounting, id, Nil);
    GetPlain(accounting, id);
    match (meta, Get(accounting, id)) {
      case (Dict(new'), Some(Dict(have))) =>
        DictPlain(new');
        DictPlain(have);
        UpdatePlain(have, new');
        PlainDict(Update(have, new'));
        SetItemPlain(accounting, id, Dict(Update(have, new')));
      case _ =>
    }
  }

  lemma {:induction false} GetHas(items: seq<Item>, key: Value)
    requires PlainItems(items) && Get(items, key).Some?
    ensures Plain(key) && Hashable(key)
  {
    assert PlainItem(items[0]);
    if items[0].key != key {
      assert forall i :: 0 <= i < |items[1..]| ==> items[1..][i] == items[i + 1];
      GetHas(items[1..], key);
    }
  }

  lemma RemovedPlain(accounting: seq<Item>, id: Value, metakey: Value)
    requires PlainItems(accounting)
    ensures RemovedKey(accounting, id, metakey).Some? ==>
              PlainItems(RemovedKey(accounting, id, metakey).value)
  {
    PopPlain(accounting, id);
    GetPlain(accounting, id);
    match Get(accounting, id) {
      case Some(Dict(have)) =>
        var key := Norm(metakey);
        GetHas(accounting, id);
        DictPlain(have);
        PopPlain(have, key);
        PlainDict(Pop(have, key));
        SetItemPlain(accounting, id, Dict(Pop(have, key)));
      case _ =>
    }
  }

  // The entry of a metadata key of a node; None as well when the node has no metadata at all.
  function Entry(accounting: seq<Item>, id: Value, key: Value): Option<Value>
  {
    match Get(accounting, id)
    case None => None
    case Some(m) => if m.Dict? then Get(m.items, key) else None
  }

  // Adding raises exactly if the id cannot be hashed, the metadata is neither a dict nor None, or it
  // is to be merged into something that is no dict.
  lemma AddedWhen(accounting: seq<Item>, id: Value, meta: Value)
    ensures Added(accounting, id, meta).None? <==>
              || !Hashable(id)
              || (!meta.Nil? && !meta.Dict?)
              || (meta.Dict? && meta.items != [] && Get(accounting, id).Some?
                  && !Get(accounting, id).value.Nil? && !Get(accounting, id).value.Dict?)
  {
  }

  // Without metadata a node is put on record, and one on record loses its own.
  lemma AddedNil(accounting: seq<Item>, id: Value, other: Value)
    requires Hashable(id)
    ensures Added(accounting, id, Nil).Some?
    ensures Get(Added(accounting, id, Nil).value, other) ==
            if other == id then Some(Nil) else Get(accounting, other)
  {
    GetSet(accounting, id, Nil, other);
  }

  // Adding metadata overrides the entries it names, keeps the node's other entries, and touches no
  // other node.
  lemma AddedMeaning(accounting: seq<Item>, id: Value, meta: seq<Item>, other: Value, key: Value)
    requires PlainItems(accounting) && UniqueKeys(meta) && Hashable(id)
    requires var have := Get(accounting, id); have.None? || have.value.Nil? || have.value.Dict?
    ensures Added(accounting, id, Dict(meta)).Some?
    ensures var r := Added(accounting, id, Dict(meta)).value;
            && (other != id ==> Get(r, other) == Get(accounting, other))
            && Get(r, id).Some?
            && Entry(r, id, key) ==
                 if Get(meta, key).Some? then Get(meta, key) else Entry(accounting, id, key)
  {
    var have := Get(accounting, id);
    var m := if have.None? || have.value.Nil? then Dict(meta)
             else Dict(Update(have.value.items, meta));
    GetSet(accounting, id, m, other);
    GetSet(accounting, id, m, id);
    if have.Some? && have.value.Dict? {
      GetUpdate(have.value.items, meta, key);
    }
  }

  lemma PlainUnique(accounting: seq<Item>, id: Value)
    requires PlainItems(accounting)
    ensures UniqueKeys(accounting)
    ensures Get(accounting, id).Some? && Get(accounting, id).value.Dict? ==>
              UniqueKeys(Get(accounting, id).value.items)
  {
  }

  // The metadata of a node on record from which one entry cannot be removed.
  ghost predicate Unremovable(accounting: seq<Item>, id: Value, metakey: Value)
  {
    var m := Get(accounting, Norm(id));
    m.Some? && !Falsy(metakey) && (!m.value.Dict? || !Hashable(metakey))
  }

  // Removing raises exactly if the id cannot be hashed, or the node is on record, an entry is named,
  // and there is no metadata to look for it or its key cannot be hashed.  Otherwise it touches no
  // other node, and a node that stays has metadata left.
  lemma RemovedOthers(accounting: seq<Item>, id: Value, metakey: Value, other: Value)
    requires PlainItems(accounting)
    ensures Removed(accounting, id, metakey).None? <==>
              !Hashable(id) || Unremovable(accounting, id, metakey)
    ensures Removed(accounting, id, metakey).Some? ==>
            var r := Removed(accounting, id, metakey).value;
            && (other != Norm(id) ==> Get(r, other) == Get(accounting, other))
            && (Falsy(metakey) ==> Get(r, Norm(id)) == None)
            && (Get(r, Norm(id)).Some? ==>
                  Get(r, Norm(id)).value.Dict? && Get(r, Norm(id)).value.items != [])
            && (Get(accounting, Norm(id)).None? ==> r == accounting)
  {
    hide PlainItems, Falsy, Get, Norm, Hashable;
    RemovedWhen(accounting, id, metakey);
    hide RemovedKey, Unremovable;
    if Removed(accounting, id, metakey).Some? {
      RemovedKeyOthers(accounting, Norm(id), metakey, other);
    }
  }

  lemma RemovedWhen(accounting: seq<Item>, id: Value, metakey: Value)
    ensures Removed(accounting, id, metakey).None? <==>
              !Hashable(id) || Unremovable(accounting, id, metakey)
  {
  }

  lemma RemovedKeyOthers(accounting: seq<Item>, key: Value, metakey: Value, other: Value)
    requires PlainItems(accounting) && RemovedKey(accounting, key, metakey).Some?
    ensures var r := RemovedKey(accounting, key, metakey).value;
            && (other != key ==> Get(r, other) == Get(accounting, other))
            && (Falsy(metakey) ==> Get(r, key) == None)
            && (Get(r, key).Some? ==> Get(r, key).value.Dict? && Get(r, key).value.items != [])
            && (Get(accounting, key).None? ==> r == accounting)
  {
    PlainUnique(accounting, key);
    hide PlainItems, UniqueKeys, Falsy, Pop, SetItem, Get, Norm, Hashable;
    GetPop(accounting, key, other);
    GetPop(accounting, key, key);
    var have := Get(accounting, key);
    if have.Some? && have.value.Dict? {
      var left := Pop(have.value.items, Norm(metakey));
      GetSet(accounting, key, Dict(left), other);
      GetSet(accounting, key, Dict(left), key);
    }
  }

  // Removing one entry of a node keeps its other entries; the node goes with its last one.
  lemma RemovedEntry(accounting: seq<Item>, id: Value, metakey: Value, key: Value)
    requires PlainItems(accounting) && !Falsy(metakey)
    requires Hashable(id) && !Unremovable(accounting, id, metakey)
    ensures Removed(accounting, id, metakey).Some?
    ensures var r := Removed(accounting, id, metakey).value;
            && Entry(r, Norm(id), key) ==
                 (if key == Norm(metakey) then None else Entry(accounting, Norm(id), key))
            && (key != Norm(metakey) && Entry(accounting, Norm(id), key).Some? ==>
                  Get(r, Norm(id)).Some?)
  {
    hide PlainItems, Falsy, Get, Norm, Hashable;
    RemovedWhen(accounting, id, metakey);
    hide RemovedKey, Unremovable, Entry;
    RemovedKeyEntry(accounting, Norm(id), metakey, key);
  }

  lemma RemovedKeyEntry(accounting: seq<Item>, id: Value, metakey: Value, key: Value)
    requires PlainItems(accounting) && !Falsy(metakey)
    requires RemovedKey(accounting, id, metakey).Some?
    ensures var r := RemovedKey(accounting, id, metakey).value;
            && Entry(r, id, key) ==
                 (if key == Norm(metakey) then None else Entry(accounting, id, key))
            && (key != Norm(metakey) && Entry(accounting, id, key).Some? ==> Get(r, id).Some?)
  {
    PlainUnique(accounting, id);
    hide PlainItems, UniqueKeys, Falsy, Pop, SetItem, Get, Norm, Hashable;
    var have := Get(accounting, id);
    if have.Some? {
      EntryAfterPop(accounting, id, have.value.items, Norm(metakey), key);
    }
  }

  lemma EntryAfterPop(accounting: seq<Item>, id: Value, have: seq<Item>, metakey: Value, key: Value)
    requires UniqueKeys(accounting) && UniqueKeys(have)
    ensures var left := Pop(have, metakey);
            Entry(if left == [] then Pop(accounting, id) else SetItem(accounting, id, Dict(left)), id, key) ==
            if key == metakey then None else Get(have, key)
  {
    assert Get([], key).None?;
    hide UniqueKeys, Pop, SetItem, Get;
    GetPop(accounting, id, id);
    GetPop(have, metakey, key);
    GetSet(accounting, id, Dict(Pop(have, metakey)), id);
  }

  lemma {:induction false} PopUndoesSet(items: seq<Item>, key: Value, value: Value)
    requires NewKey(items, key)
    ensures Pop(SetItem(items, key, value), key) == items && Get(SetItem(items, key, value), key) == Some(value)
  {
    if items != [] {
      assert forall i :: 0 <= i < |items[1..]| ==> items[1..][i] == items[i + 1];
      PopUndoesSet(items[1..], key, value);
      assert items == [items[0]] + items[1..];
    }
  }

  // Deleting a node that was just added for the first time gives the old accounting back.
  lemma DelUndoesAdd(accounting: seq<Item>, id: Value, meta: Value)
    requires NewKey(accounting, id) && Plain(id) && Hashable(id) && (meta.Nil? || meta.Dict?)
    ensures Added(accounting, id, meta).Some?
    ensures Removed(Added(accounting, id, meta).value, id, Nil) == Some(accounting)
  {
    GetNone(accounting, id);
    PopUndoesSet(accounting, id, meta);
  }

  lemma ApplyPlain(a: Abstract, writable: bool, op: Op)
    requires a.pos <= |a.data| && PlainItems(a.accounting) && PlainOp(op)
    ensures PlainItems(Apply(a, writable, op).0.accounting)
    ensures Apply(a, writable, op).0.pos <= |Apply(a, writable, op).0.data|
    ensures |a.data| <= |Apply(a, writable, op).0.data|
  {
    match op {
      case AddNode(id, meta) => AddedPlain(a.accounting, id, meta);
      case DelNode(id, metakey) => RemovedPlain(a.accounting, Norm(id), metakey);
      case _ =>
    }
  }

  lemma SliceOfSlice<T>(s: seq<T>, lo: nat, hi: nat, i: nat, j: nat)
    requires lo <= i <= j <= hi <= |s|
    ensures s[i..j] == s[lo..hi][i - lo..j - lo]
  {
    var a, b := s[i..j], s[lo..hi][i - lo..j - lo];
    assert |a| == |b|;
    assert forall k :: 0 <= k < |a| ==> a[k] == b[k];
  }

  // ---------- the file object ----------

  class BlockFile {
    const writable: bool                  // mode 'rb+' rather than 'rb'
    const crc: seq<Item> -> nat           // the checksum of an accounting
    const accountingcrc: nat              // ... of the one read at the start
    var disk: seq<Byte>                   // the bytes of the file
    var pos: nat                          // its position
    var closed: bool
    var size: nat
    var dataend: nat
    var accounting: seq<Item>
    var changed: bool

    ghost predicate Valid()
      reads this
    {
      && size < SIZE_LIMIT && dataend == 8 + size && 8 <= pos <= dataend <= |disk|
      && disk[..8] == Pack(size)
    }

    ghost function View(): Abstract
      reads this
      requires Valid()
    {
      Abstract(disk[8..dataend], pos - 8, accounting)
    }

    constructor (disk: seq<Byte>, writable: bool, crc: seq<Item> -> nat)
      requires Parse(disk).Some?
      ensures Valid() && View() == Abstract(Parse(disk).value.data, 0, Parse(disk).value.accounting)
      ensures this.disk == disk && this.writable == writable && this.crc == crc && !closed && !changed
      ensures accountingcrc == crc(accounting)
    {
      this.disk, this.writable, this.crc := disk, writable, crc;
      size := Unpack(disk[..8]);
      dataend := 8 + Unpack(disk[..8]);
      accounting := Parse(disk).value.accounting;
      accountingcrc := crc(Parse(disk).value.accounting);
      changed, closed := false, false;
      pos := 8;
      new;
      HeaderOf(disk[..8]);
    }

    method Read(len: Option<int>) returns (bytes: seq<Byte>)
      requires Valid()
      modifies this`pos
      ensures Valid() && (View(), Got(bytes)) == Apply(old(View()), writable, Op.Read(len))
    {
      ghost var data := disk[8..dataend];
      assert data[pos - 8..pos - 8] == [];
      var n: int;
      match len {
        case None =>
          n := dataend - pos;
        case Some(l) =>
          n := l;
          if pos + n > dataend {
            n := dataend - pos;
          }
          if n <= 0 {
            return [];
          }
      }
      bytes := disk[pos..pos + n];
      SliceOfSlice(disk, 8, dataend, pos, pos + n);
      pos := pos + n;
    }

    method Seek(to: int)
      requires Valid()
      modifies this`pos
      ensures Valid() && View() == Apply(old(View()), writable, Op.Seek(to)).0
    {
      var p := to;
      if p < 0 {
        p := 0;
      }
      if p > dataend - 8 {
        p := dataend - 8;
      }
      pos := 8 + p;
    }

    // The bytes may run over the stored accounting; the header follows the growing size.
    method Write(bytes: seq<Byte>) returns (out: Output)
      requires Valid() && pos - 8 + |bytes| < SIZE_LIMIT
      modifies this`changed, this`disk, this`pos, this`dataend, this`size
      ensures Valid() && (View(), out) == Apply(old(View()), writable, Op.Write(bytes)) && changed
      ensures !writable ==> disk == old(disk)
    {
      changed := true;
      if !writable {
        return Raised;
      }
      ghost var before, start := disk, pos;
      disk := Overwrite(disk, pos, bytes);
      pos := pos + |bytes|;
      if pos > dataend {
        var enlargement := pos - dataend;
        dataend := pos;
        size := size + enlargement;
        disk := Overwrite(disk, 0, Pack(size));
      }
      OverwriteView(before, start, bytes, old(dataend), disk, dataend, size);
      out := Done;
    }

    method AddNode(id: Value, meta: Value) returns (out: Output)
      requires Valid()
      modifies this`accounting
      ensures Valid() && (View(), out) == Apply(old(View()), writable, Op.AddNode(id, meta))
    {
      if !writable || !Hashable(id) {
        return Raised;
      }
      match meta {
        case Nil =>
          accounting := SetItem(accounting, id, meta);
        case Dict(new') =>
          match Get(accounting, id) {
            case None =>
              accounting := SetItem(accounting, id, meta);
            case Some(Nil) =>
              accounting := SetItem(accounting, id, meta);
            case Some(Dict(have)) =>
              accounting := SetItem(accounting, id, Dict(Update(have, new')));
            case _ =>
              if new' != [] {
                return Raised;
              }
          }
        case _ =>
          return Raised;
      }
      out := Done;
    }

    method DelNode(id: Value, metakey: Value) returns (out: Output)
      requires Valid()
      modifies this`accounting
      ensures Valid() && (View(), out) == Apply(old(View()), writable, Op.DelNode(id, metakey))
    {
      if !writable || !Hashable(id) {
        return Raised;
      }
      var key := Norm(id);
      match Get(accounting, key) {
        case None =>
        case Some(m) =>
          if Falsy(metakey) {
            accounting := Pop(accounting, key);
          } else if m.Dict? && Hashable(metakey) {
            var left := Pop(m.items, Norm(metakey));
            if left != [] {
              accounting := SetItem(accounting, key, Dict(left));
            } else {
              accounting := Pop(accounting, key);
            }
          } else {
            return Raised;
          }
      }
      out := Done;
    }

    // Writes the accounting behind the data and cuts the file, but only when something was written
    // or the checksum of the accounting has changed.
    method Close() returns (ok: bool)
      requires Valid() && !closed
      modifies this`closed, this`disk, this`pos
      ensures var dirty := writable && (changed || crc(accounting) != accountingcrc);
              && ok == (dirty ==> Storable(accounting)) && closed == ok
              && disk == if dirty && ok then Layout(old(View()).data, accounting) else old(disk)
    {
      if writable && (changed || crc(accounting) != accountingcrc) {
        if !Storable(accounting) {
          pos := dataend;
          return false;
        }
        var text := ToBytes(Encoding(Dict(accounting), false).value);
        assert disk[..dataend] == Pack(size) + disk[8..dataend];
        disk := disk[..dataend] + text;
      }
      closed := true;
      ok := true;
    }
  }

  // How much an operation can add to the data.
  function Growth(op: Op): nat
  {
    if op.Write? then |op.bytes| else 0
  }

  function TotalGrowth(ops: seq<Op>): nat
  {
    if ops == [] then 0 else TotalGrowth(ops[..|ops| - 1]) + Growth(ops[|ops| - 1])
  }

  lemma {:induction false} GrowthBound(a: Abstract, writable: bool, ops: seq<Op>, i: nat)
    requires a.pos <= |a.data| && i <= |ops|
    ensures |ApplyAll(a, writable, ops[..i]).0.data| <= |a.data| + TotalGrowth(ops[..i])
    ensures TotalGrowth(ops[..i]) <= TotalGrowth(ops)
  {
    if i > 0 {
      GrowthBound(a, writable, ops, i - 1);
      assert ops[..i][..i - 1] == ops[..i - 1];
    }
    PrefixGrowth(ops, i);
  }

  lemma {:induction false} PrefixGrowth(ops: seq<Op>, i: nat)
    requires i <= |ops|
    ensures TotalGrowth(ops[..i]) <= TotalGrowth(ops)
    decreases |ops| - i
  {
    if i < |ops| {
      assert ops[..i + 1][..i] == ops[..i];
      PrefixGrowth(ops, i + 1);
    } else {
      assert ops[..i] == ops;
    }
  }

  lemma {:induction false} RunPlain(a: Abstract, writable: bool, ops: seq<Op>)
    requires a.pos <= |a.data| && PlainItems(a.accounting) && forall i :: 0 <= i < |ops| ==> PlainOp(ops[i])
    ensures PlainItems(ApplyAll(a, writable, ops).0.accounting)
  {
    if ops != [] {
      RunPlain(a, writable, ops[..|ops| - 1]);
      ApplyPlain(ApplyAll(a, writable, ops[..|ops| - 1]).0, writable, ops[|ops| - 1]);
    }
  }

  ghost predicate HasWrite(ops: seq<Op>)
  {
    exists i :: 0 <= i < |ops| && ops[i].Write?
  }

  lemma {:induction false} NoWriteKeepsData(a: Abstract, writable: bool, ops: seq<Op>)
    requires a.pos <= |a.data| && !HasWrite(ops)
    ensures ApplyAll(a, writable, ops).0.data == a.data
  {
    if ops != [] {
      var front := ops[..|ops| - 1];
      assert forall i :: 0 <= i < |front| ==> front[i] == ops[i];
      NoWriteKeepsData(a, writable, front);
    }
  }

  // What the file holds after the session, given what the abstract run ends with.
  ghost predicate SessionEnds(disk: seq<Byte>, writable: bool, crc: seq<Item> -> nat, wrote: bool,
                              start: Content, end: Content, disk': seq<Byte>, ok: bool)
  {
    && (Storable(end.accounting) ==> ok)
    && (!writable ==> ok && disk' == disk)
    && (ok && writable ==>
          Parse(disk') == Some(if wrote || crc(end.accounting) != crc(start.accounting) then end
                               else Content(end.data, start.accounting)))
  }

  lemma SessionEnd(disk: seq<Byte>, writable: bool, crc: seq<Item> -> nat, wrote: bool,
                   start: Content, end: Content, disk': seq<Byte>, ok: bool)
    requires Parse(disk) == Some(start) && PlainItems(end.accounting) && |end.data| < SIZE_LIMIT
    requires !wrote ==> end.data == start.data
    requires var dirty := writable && (wrote || crc(end.accounting) != crc(start.accounting));
             && ok == (dirty ==> Storable(end.accounting))
             && if dirty && ok then disk' == Layout(end.data, end.accounting)
                else !wrote || !writable ==> disk' == disk
    ensures SessionEnds(disk, writable, crc, wrote, start, end, disk', ok)
  {
    if writable && ok && (wrote || crc(end.accounting) != crc(start.accounting)) {
      ParseLayout(end.data, end.accounting);
    }
  }

  // Opening a file, running any operations on it and closing it again does to its content what
  // the operations do to the pair of data and accounting, and each answers as on that pair.  The
  // new accounting reaches the file exactly when something was written or its checksum differs
  // from that of the old one, or it is the old one.
  method Session(disk: seq<Byte>, writable: bool, crc: seq<Item> -> nat, ops: seq<Op>)
    returns (disk': seq<Byte>, outs: seq<Output>, ok: bool)
    requires Parse(disk).Some?
    requires forall i :: 0 <= i < |ops| ==> PlainOp(ops[i])
    requires |Parse(disk).value.data| + TotalGrowth(ops) < SIZE_LIMIT
    ensures var start := Parse(disk).value;
            var (end, answers) := ApplyAll(Abstract(start.data, 0, start.accounting), writable, ops);
            && outs == answers
            && SessionEnds(disk, writable, crc, HasWrite(ops), start, Content(end.data, end.accounting), disk', ok)
    ensures ok ==> Parse(disk').Some?
  {
    ParsedPlain(disk);
    hide Parse, Apply, Storable, Layout, PlainOp, PlainItems, SessionEnds;
    var f := new BlockFile(disk, writable, crc);
    ghost var content := Parse(disk).value;
    ghost var start := Abstract(content.data, 0, content.accounting);
    outs := [];
    var i := 0;
    while i < |ops|
      invariant 0 <= i <= |ops|
      invariant f.Valid() && !f.closed && f.writable == writable && f.crc == crc
      invariant f.accountingcrc == crc(start.accounting)
      invariant (f.View(), outs) == ApplyAll(start, writable, ops[..i])
      invariant f.changed == HasWrite(ops[..i])
      invariant !f.changed || !writable ==> f.disk == disk
    {
      GrowthBound(start, writable, ops, i);
      GrowthBound(start, writable, ops, i + 1);
      NextOp(ops, i);
      var out := Perform(f, ops[i]);
      outs := outs + [out];
      i := i + 1;
    }
    assert ops[..i] == ops;
    RunPlain(start, writable, ops);
    GrowthBound(start, writable, ops, |ops|);
    if !HasWrite(ops) {
      NoWriteKeepsData(start, writable, ops);
    }
    ghost var end := f.View();
    ok := f.Close();
    disk' := f.disk;
    SessionEnd(disk, writable, crc, HasWrite(ops), content, Content(end.data, end.accounting), disk', ok);
  }

  lemma NextOp(ops: seq<Op>, i: nat)
    requires i < |ops|
    ensures ops[..i + 1][..i] == ops[..i] && ops[..i + 1][i] == ops[i]
    ensures TotalGrowth(ops[..i + 1]) == TotalGrowth(ops[..i]) + Growth(ops[i])
    ensures HasWrite(ops[..i + 1]) == (HasWrite(ops[..i]) || ops[i].Write?)
  {
  }

  // Without a collision of checksums the file holds exactly what the abstract run ends with.
  lemma SessionFaithful(disk: seq<Byte>, crc: seq<Item> -> nat, wrote: bool,
                        start: Content, end: Content, disk': seq<Byte>)
    requires SessionEnds(disk, true, crc, wrote, start, end, disk', true)
    ensures Parse(disk') == Some(end) <==>
            (wrote || crc(end.accounting) != crc(start.accounting) || end.accounting == start.accounting)
  {
  }

  method Perform(f: BlockFile, op: Op) returns (out: Output)
    requires f.Valid() && f.pos - 8 + Growth(op) < SIZE_LIMIT
    modifies f`pos, f`disk, f`size, f`dataend, f`accounting, f`changed
    ensures f.Valid() && (f.View(), out) == Apply(old(f.View()), f.writable, op)
    ensures f.changed == (old(f.changed) || op.Write?)
    ensures !op.Write? || !f.writable ==> f.disk == old(f.disk)
  {
    match op {
      case Seek(to) =>
        f.Seek(to);
        out := Done;
      case Read(len) =>
        var bytes := f.Read(len);
        out := Got(bytes);
      case Write(bytes) =>
        out := f.Write(bytes);
      case AddNode(id, meta) =>
        out := f.AddNode(id, meta);
      case DelNode(id, metakey) =>
        out := f.DelNode(id, metakey);
    }
  }

  // The middle of three parts, cut out again.
  lemma Middle<T>(a: seq<T>, b: seq<T>, c: seq<T>)
    ensures (a + b + c)[..|a|] == a && (a + b + c)[|a|..|a| + |b|] == b
  {
  }

  lemma OverwriteWithin(head: seq<Byte>, data: seq<Byte>, tail: seq<Byte>, p: nat, bytes: seq<Byte>)
    requires p + |bytes| <= |data|
    ensures Overwrite(head + data + tail, |head| + p, bytes) == head + Overwrite(data, p, bytes) + tail
  {
  }

  lemma OverwriteBeyond(head: seq<Byte>, data: seq<Byte>, tail: seq<Byte>, p: nat, bytes: seq<Byte>)
    requires p <= |data| < p + |bytes|
    ensures Overwrite(head + data + tail, |head| + p, bytes) ==
            head + Overwrite(data, p, bytes) + Overwrite(head + data + tail, |head| + p, bytes)[|head| + p + |bytes|..]
  {
  }

  lemma OverwriteInside(disk: seq<Byte>, pos: nat, bytes: seq<Byte>, dataend: nat) returns (rest: seq<Byte>)
    requires 8 <= pos <= dataend <= |disk|
    ensures Overwrite(disk, pos, bytes) == disk[..8] + Overwrite(disk[8..dataend], pos - 8, bytes) + rest
  {
    var head, data, tail := disk[..8], disk[8..dataend], disk[dataend..];
    assert disk == head + data + tail;
    if pos + |bytes| <= dataend {
      OverwriteWithin(head, data, tail, pos - 8, bytes);
      rest := tail;
    } else {
      OverwriteBeyond(head, data, tail, pos - 8, bytes);
      rest := Overwrite(disk, pos, bytes)[pos + |bytes|..];
    }
  }

  lemma Reheaded(head: seq<Byte>, h: seq<Byte>, data: seq<Byte>, rest: seq<Byte>)
    requires |h| == |head|
    ensures Overwrite(head + data + rest, 0, h) == h + data + rest
  {
  }

  lemma OverwriteView(disk: seq<Byte>, pos: nat, bytes: seq<Byte>, dataend: nat,
                      disk': seq<Byte>, dataend': nat, size': nat)
    requires 8 <= pos <= dataend <= |disk| && size' < SIZE_LIMIT && dataend' == 8 + size'
    requires dataend' == if pos + |bytes| > dataend then pos + |bytes| else dataend
    requires disk[..8] == Pack(dataend - 8)
    requires var d := Overwrite(disk, pos, bytes);
             disk' == if pos + |bytes| > dataend then Overwrite(d, 0, Pack(size')) else d
    ensures dataend' <= |disk'| && disk'[..8] == Pack(size')
    ensures disk'[8..dataend'] == Overwrite(disk[8..dataend], pos - 8, bytes)
  {
    var data := Overwrite(disk[8..dataend], pos - 8, bytes);
    assert |data| == size';
    var rest := OverwriteInside(disk, pos, bytes, dataend);
    hide Overwrite, Pack;
    Reheaded(disk[..8], Pack(size'), data, rest);
    Middle(disk[..8], data, rest);
    Middle(Pack(size'), data, rest);
  }
}
