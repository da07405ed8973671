/** Values with layers of nested encodings, and how many layers a decoding peels. */
module Layers {
  import opened Contacts
  import opened Codec
  import opened CodecLaws

  // A value in which `Wrap` marks a part that is carried as the encoding of what it wraps.
  datatype Layered =
    | Atom(v: Value)
    | Seq(isTuple: bool, parts: seq<Layered>)
    | Map(entries: seq<Entry>)
    | Wrap(inner: Layered)

  datatype Entry = Entry(key: Value, part: Layered)

  predicate IsAtom(v: Value)
  {
    !v.Dict? && !v.List? && !v.Tuple? && !v.Fencoded?
  }

  // The value that is carried: each wrapped part is encoded.  None when an encoding does not fit.
  function Lower(x: Layered): Option<Value>
    decreases x
  {
    match x
    case Atom(v) => Some(v)
    case Seq(isTuple, parts) =>
      (match LowerParts(parts)
       case None => None
       case Some(vs) => Some(if isTuple then Tuple(vs) else List(vs)))
    case Map(entries) =>
      (match LowerEntries(entries) case None => None case Some(items) => Some(Dict(items)))
    case Wrap(inner) =>
      (match Lower(inner)
       case None => None
       case Some(v) => (match Encoding(v, false) case None => None case Some(s) => Some(Fencoded(s))))
  }

  function LowerParts(parts: seq<Layered>): Option<seq<Value>>
  {
    if parts == [] then Some([])
    else match Lower(parts[0]) case None => None case Some(v) => Prepend(v, LowerParts(parts[1..]))
  }

  function LowerEntries(entries: seq<Entry>): Option<seq<Item>>
  {
    if entries == [] then Some([])
    else match LowerEntry(entries[0]) case None => None case Some(i) => Prepend(i, LowerEntries(entries[1..]))
  }

  function LowerEntry(entry: Entry): Option<Item>
  {
    match Lower(entry.part) case None => None case Some(v) => Some(Item(entry.key, v))
  }

  // Everything that is encoded on the way is a value a Python program can hold.
  ghost predicate Proper(x: Layered)
  {
    match x
    case Atom(v) => IsAtom(v)
    case Seq(_, parts) => ProperParts(parts)
    case Map(entries) => ProperEntries(entries)
    case Wrap(inner) => Proper(inner) && (Lower(inner).Some? ==> WellFormed(Lower(inner).value))
  }

  ghost predicate ProperParts(parts: seq<Layered>)
  {
    parts == [] || (Proper(parts[0]) && ProperParts(parts[1..]))
  }

  ghost predicate ProperEntries(entries: seq<Entry>)
  {
    entries == [] || (ProperEntry(entries[0]) && ProperEntries(entries[1..]))
  }

  ghost predicate ProperEntry(entry: Entry)
  {
    Proper(entry.part)
  }

  // Peels along every path as many layers as `r` allows; booleans become integers on the way.
  function Peel(x: Layered, r: Recurse): Layered
    decreases x
  {
    match x
    case Atom(v) => Atom(Norm(v))
    case Seq(isTuple, parts) => Seq(isTuple, PeelParts(parts, r))
    case Map(entries) => Map(PeelEntries(entries, r))
    case Wrap(inner) => if Positive(Next(r)) then Peel(inner, Next(r)) else x
  }

  function PeelParts(parts: seq<Layered>, r: Recurse): seq<Layered>
  {
    if parts == [] then [] else [Peel(parts[0], r)] + PeelParts(parts[1..], r)
  }

  function PeelEntries(entries: seq<Entry>, r: Recurse): seq<Entry>
  {
    if entries == [] then [] else [PeelEntry(entries[0], r)] + PeelEntries(entries[1..], r)
  }

  function PeelEntry(entry: Entry, r: Recurse): Entry
  {
    Entry(Norm(entry.key), Peel(entry.part, r))
  }

  // ---------- decoding peels ----------

  lemma {:induction false} UnwrapPeels(x: Layered, v: Value, r: Recurse)
    requires Proper(x) && Lower(x) == Some(v)
    ensures Unwrap(v, r) == Lower(Peel(x, r)) && Unwrap(v, r).Some?
    decreases x, 0
  {
    match x {
      case Atom(a) =>
      case Seq(isTuple, parts) =>
        UnwrapPeelsParts(parts, LowerParts(parts).value, r);
      case Map(entries) =>
        UnwrapPeelsEntries(entries, LowerEntries(entries).value, r);
      case Wrap(inner) =>
        if Positive(Next(r)) {
          var w := Lower(inner).value;
          RoundTrip(w, false, Encoding(w, false).value, Next(r));
          UnwrapPeels(inner, w, Next(r));
        }
    }
  }

  lemma {:induction false} UnwrapPeelsParts(parts: seq<Layered>, vs: seq<Value>, r: Recurse)
    requires ProperParts(parts) && LowerParts(parts) == Some(vs)
    ensures UnwrapElems(vs, r) == LowerParts(PeelParts(parts, r)) && UnwrapElems(vs, r).Some?
    decreases parts, 1
  {
    if parts != [] {
      var v, rest := Lower(parts[0]).value, LowerParts(parts[1..]).value;
      assert vs[0] == v && vs[1..] == rest;
      UnwrapPeels(parts[0], v, r);
      UnwrapPeelsParts(parts[1..], rest, r);
      var peeled := PeelParts(parts, r);
      assert peeled[0] == Peel(parts[0], r) && peeled[1..] == PeelParts(parts[1..], r);
    }
  }

  lemma {:induction false} UnwrapPeelsEntries(entries: seq<Entry>, items: seq<Item>, r: Recurse)
    requires ProperEntries(entries) && LowerEntries(entries) == Some(items)
    ensures UnwrapItems(items, r) == LowerEntries(PeelEntries(entries, r)) && UnwrapItems(items, r).Some?
    decreases entries, 1
  {
    if entries != [] {
      var i, rest := LowerEntry(entries[0]).value, LowerEntries(entries[1..]).value;
      assert items[0] == i && items[1..] == rest;
      UnwrapPeelsEntry(entries[0], i, r);
      UnwrapPeelsEntries(entries[1..], rest, r);
      var peeled := PeelEntries(entries, r);
      assert peeled[0] == PeelEntry(entries[0], r) && peeled[1..] == PeelEntries(entries[1..], r);
    }
  }

  lemma {:induction false} UnwrapPeelsEntry(entry: Entry, item: Item, r: Recurse)
    requires ProperEntry(entry) && LowerEntry(entry) == Some(item)
    ensures UnwrapItem(item, r) == LowerEntry(PeelEntry(entry, r)) && UnwrapItem(item, r).Some?
    decreases entry, 0
  {
    UnwrapPeels(entry.part, item.value, r);
  }

  // Decoding a layered value peels exactly those layers.
  lemma DecodingPeels(x: Layered, v: Value, s: string, r: Recurse)
    requires Proper(x) && Lower(x) == Some(v) && WellFormed(v) && Encoding(v, false) == Some(s)
    ensures Decoding(s, false, r) == Lower(Peel(x, r)) && Decoding(s, false, r).Some?
  {
    RoundTrip(v, false, s, r);
    UnwrapPeels(x, v, r);
  }

  // ---------- how many layers ----------

  function Tower(depth: nat, x: Layered): Layered
  {
    if depth == 0 then x else Wrap(Tower(depth - 1, x))
  }

  // Of a tower of layers, `n` levels of recursion peel n - 1, or all of them if there are fewer.
  lemma {:induction false} PeelTower(depth: nat, x: Layered, n: nat)
    requires n >= 1
    ensures Peel(Tower(depth, x), Levels(n)) ==
            if n - 1 < depth then Tower(depth - (n - 1), x) else Peel(x, Levels(n - depth))
    decreases depth
  {
    if depth > 0 && n > 1 {
      PeelTower(depth - 1, x, n - 1);
    }
  }

  predicate NoLayers(x: Layered)
  {
    match x
    case Atom(_) => true
    case Seq(_, parts) => forall i :: 0 <= i < |parts| ==> NoLayers(parts[i])
    case Map(entries) => forall i :: 0 <= i < |entries| ==> NoLayersEntry(entries[i])
    case Wrap(_) => false
  }

  predicate NoLayersEntry(entry: Entry)
  {
    NoLayers(entry.part)
  }

  // `recurse=True` peels every layer on every path.
  lemma {:induction false} PeelAll(x: Layered)
    ensures NoLayers(Peel(x, All))
    decreases x, 0
  {
    match x {
      case Atom(_) =>
      case Seq(_, parts) => PeelAllParts(parts);
      case Map(entries) => PeelAllEntries(entries);
      case Wrap(inner) => PeelAll(inner);
    }
  }

  lemma {:induction false} PeelAllParts(parts: seq<Layered>)
    ensures forall i :: 0 <= i < |PeelParts(parts, All)| ==> NoLayers(PeelParts(parts, All)[i])
    decreases parts, 1
  {
    if parts != [] {
      PeelAll(parts[0]);
      PeelAllParts(parts[1..]);
    }
  }

  lemma {:induction false} PeelAllEntries(entries: seq<Entry>)
    ensures forall i :: 0 <= i < |PeelEntries(entries, All)| ==> NoLayersEntry(PeelEntries(entries, All)[i])
    decreases entries, 1
  {
    if entries != [] {
      PeelAllEntry(entries[0]);
      PeelAllEntries(entries[1..]);
    }
  }

  lemma {:induction false} PeelAllEntry(entry: Entry)
    ensures NoLayersEntry(PeelEntry(entry, All))
    decreases entry, 0
  {
    PeelAll(entry.part);
  }
}
