/** The identities that travel through the DHT, and the XOR metric that orders them. */
module Contacts {

  // The (host, port, id) triple under which a peer is asked.
  datatype Node = Node(host: string, port: int, id: nat)

  // What routing tables and answers carry: the triple and the modulus of the peer's public key.
  datatype Contact = Contact(node: Node, ku: int)

  datatype Option<+T> = None | Some(value: T)

  // Python's `^` on non-negative integers of any width.
  function Xor(a: nat, b: nat): nat
  {
    if a == 0 && b == 0 then 0
    else 2 * Xor(a / 2, b / 2) + (if a % 2 == b % 2 then 0 else 1)
  }

  lemma {:induction false} XorInjective(key: nat, a: nat, b: nat)
    requires Xor(key, a) == Xor(key, b)
    ensures a == b
  {
    if key != 0 || a != 0 || b != 0 {
      assert Xor(key, a) == 2 * Xor(key / 2, a / 2) + (if key % 2 == a % 2 then 0 else 1);
      assert Xor(key, b) == 2 * Xor(key / 2, b / 2) + (if key % 2 == b % 2 then 0 else 1);
      XorInjective(key / 2, a / 2, b / 2);
    }
  }

  lemma {:induction false} XorSelf(key: nat)
    ensures Xor(key, key) == 0
  {
    if key != 0 {
      XorSelf(key / 2);
    }
  }

  // The key functions of the source's sorts: distance to `key` of a triple and of a contact.
  function NodeDistance(key: nat): Node -> nat
  {
    (n: Node) => Xor(key, n.id)
  }

  function Distance(key: nat): Contact -> nat
  {
    (c: Contact) => Xor(key, c.node.id)
  }

  ghost predicate UniqueIds(s: set<Contact>)
  {
    forall c, d :: c in s && d in s && c.node.id == d.node.id ==> c == d
  }

  lemma DistanceInjective(key: nat, s: set<Contact>)
    requires UniqueIds(s)
    ensures InjectiveOn(Distance(key), s)
  {
    forall c, d | c in s && d in s && Distance(key)(c) == Distance(key)(d)
      ensures c == d
    {
      XorInjective(key, c.node.id, d.node.id);
    }
  }

  // ---------- stable sorting by a numeric key ----------

  ghost predicate InjectiveOn<T(!new)>(d: T -> nat, s: set<T>)
  {
    forall x, y :: x in s && y in s && d(x) == d(y) ==> x == y
  }

  ghost predicate Ascending<T>(d: T -> nat, s: seq<T>)
  {
    forall i, j :: 0 <= i < j < |s| ==> d(s[i]) <= d(s[j])
  }

  ghost predicate StrictlyAscending<T>(d: T -> nat, s: seq<T>)
  {
    forall i, j :: 0 <= i < j < |s| ==> d(s[i]) < d(s[j])
  }

  ghost predicate NoDuplicates<T>(s: seq<T>)
  {
    forall i, j :: 0 <= i < j < |s| ==> s[i] != s[j]
  }

  function Elements<T>(s: seq<T>): set<T>
  {
    set x | x in s
  }

  // `x` goes in front of the first element that is not nearer, so equals keep their order.
  function InsertBy<T>(d: T -> nat, x: T, s: seq<T>): seq<T>
  {
    if s == [] then [x]
    else if d(x) <= d(s[0]) then [x] + s
    else [s[0]] + InsertBy(d, x, s[1..])
  }

  function SortBy<T>(d: T -> nat, s: seq<T>): seq<T>
  {
    if s == [] then [] else InsertBy(d, s[0], SortBy(d, s[1..]))
  }

  lemma {:induction false} InsertByKeeps<T>(d: T -> nat, x: T, s: seq<T>)
    ensures multiset(InsertBy(d, x, s)) == multiset(s) + multiset{x}
    ensures forall y :: y in InsertBy(d, x, s) <==> y in s || y == x
  {
    if s != [] && d(x) > d(s[0]) {
      InsertByKeeps(d, x, s[1..]);
      assert s == [s[0]] + s[1..];
    }
  }

  lemma {:induction false} InsertBySorted<T>(d: T -> nat, x: T, s: seq<T>)
    requires Ascending(d, s)
    ensures Ascending(d, InsertBy(d, x, s))
  {
    if s != [] && d(x) > d(s[0]) {
      var r := InsertBy(d, x, s[1..]);
      InsertBySorted(d, x, s[1..]);
      InsertByKeeps(d, x, s[1..]);
      PrependSorted(d, s[0], s[1..], x, r);
    }
  }

  lemma PrependSorted<T>(d: T -> nat, head: T, s: seq<T>, x: T, r: seq<T>)
    requires Ascending(d, [head] + s) && d(head) <= d(x)
    requires Ascending(d, r)
    requires forall y :: y in r <==> y in s || y == x
    ensures Ascending(d, [head] + r)
  {
    var whole := [head] + s;
    assert whole[0] == head;
    assert forall m :: 0 <= m < |s| ==> whole[m + 1] == s[m];
    assert forall y :: y in s ==> d(head) <= d(y);
    forall j | 0 <= j < |r|
      ensures d(head) <= d(r[j])
    {
      assert r[j] in r;
    }
  }

  lemma {:induction false} SortByAscending<T>(d: T -> nat, s: seq<T>)
    ensures Ascending(d, SortBy(d, s))
  {
    if s != [] {
      SortByAscending(d, s[1..]);
      InsertBySorted(d, s[0], SortBy(d, s[1..]));
    }
  }

  lemma {:induction false} SortByKeeps<T>(d: T -> nat, s: seq<T>)
    ensures multiset(SortBy(d, s)) == multiset(s)
  {
    if s != [] {
      SortByKeeps(d, s[1..]);
      InsertByKeeps(d, s[0], SortBy(d, s[1..]));
      assert s == [s[0]] + s[1..];
    }
  }

  lemma SortBySorted<T>(d: T -> nat, s: seq<T>)
    ensures Ascending(d, SortBy(d, s))
    ensures multiset(SortBy(d, s)) == multiset(s)
    ensures |SortBy(d, s)| == |s|
    ensures Elements(SortBy(d, s)) == Elements(s)
    ensures forall x :: x in SortBy(d, s) <==> x in s
  {
    SortByAscending(d, s);
    SortByKeeps(d, s);
    SameMultiset(SortBy(d, s), s);
  }

  lemma SameMultiset<T>(a: seq<T>, b: seq<T>)
    requires multiset(a) == multiset(b)
    ensures |a| == |b|
    ensures Elements(a) == Elements(b)
    ensures forall x :: x in a <==> x in b
  {
    assert |multiset(a)| == |multiset(b)|;
    forall x
      ensures x in a <==> x in b
    {
      assert x in a <==> x in multiset(a);
      assert x in b <==> x in multiset(b);
    }
  }

  lemma {:induction false} SortSorted<T>(d: T -> nat, s: seq<T>)
    requires Ascending(d, s)
    ensures SortBy(d, s) == s
  {
    if s != [] {
      SortSorted(d, s[1..]);
      assert s == [s[0]] + s[1..];
    }
  }

  lemma {:induction false} SizeOfElements<T>(s: seq<T>)
    requires NoDuplicates(s)
    ensures |Elements(s)| == |s|
  {
    if s != [] {
      SizeOfElements(s[1..]);
      assert Elements(s) == Elements(s[1..]) + {s[0]};
      assert s[0] !in s[1..];
    } else {
      assert Elements(s) == {};
    }
  }

  lemma {:induction false} SizeFromElements<T>(s: seq<T>)
    requires |Elements(s)| == |s|
    ensures NoDuplicates(s)
  {
    if s != [] {
      assert Elements(s) == Elements(s[1..]) + {s[0]};
      SizeAtMost(s[1..]);
      assert s[0] !in s[1..];
      SizeFromElements(s[1..]);
      forall i, j | 0 <= i < j < |s|
        ensures s[i] != s[j]
      {
        assert s[j] == s[1..][j - 1];
      }
    }
  }

  lemma {:induction false} SizeAtMost<T>(s: seq<T>)
    ensures |Elements(s)| <= |s|
  {
    if s != [] {
      SizeAtMost(s[1..]);
      assert Elements(s) == Elements(s[1..]) + {s[0]};
    } else {
      assert Elements(s) == {};
    }
  }

  lemma SubsetSize<T>(a: set<T>, b: set<T>)
    requires a <= b
    ensures |a| <= |b|
    ensures |a| == |b| ==> a == b
  {
    assert |b| == |a| + |b - a| by {
      assert b == a + (b - a);
    }
  }

  lemma SortByDistinct<T>(d: T -> nat, s: seq<T>)
    requires NoDuplicates(s)
    ensures Ascending(d, SortBy(d, s)) && NoDuplicates(SortBy(d, s))
    ensures Elements(SortBy(d, s)) == Elements(s)
  {
    SortBySorted(d, s);
    SizeOfElements(s);
    SizeFromElements(SortBy(d, s));
  }

  // ---------- removing from a list ----------

  function RemoveFirst<T(==)>(s: seq<T>, x: T): seq<T>
  {
    if s == [] then [] else if s[0] == x then s[1..] else [s[0]] + RemoveFirst(s[1..], x)
  }

  lemma {:induction false} RemoveFirstElements<T>(s: seq<T>, x: T)
    requires NoDuplicates(s)
    ensures NoDuplicates(RemoveFirst(s, x))
    ensures Elements(RemoveFirst(s, x)) == Elements(s) - {x}
  {
    if s != [] {
      assert s == [s[0]] + s[1..];
      assert Elements(s) == {s[0]} + Elements(s[1..]);
      if s[0] != x {
        var r := RemoveFirst(s[1..], x);
        RemoveFirstElements(s[1..], x);
        assert Elements([s[0]] + r) == {s[0]} + Elements(r);
        assert forall y :: y in r ==> y in Elements(r);
      }
    }
  }

  // ---------- the k nearest elements of a set ----------

  function Take<T>(k: nat, s: seq<T>): seq<T>
  {
    if |s| <= k then s else s[..k]
  }

  // `near` lists, nearest first, min(k, |all|) elements of `all`, and no element that it leaves
  // out is nearer than one that it lists.
  ghost predicate Nearest<T(!new)>(d: T -> nat, k: nat, all: set<T>, near: seq<T>)
  {
    && NoDuplicates(near) && Ascending(d, near)
    && Elements(near) <= all
    && |near| == (if |all| <= k then |all| else k)
    && forall x, y :: x in all && x !in near && y in near ==> d(y) <= d(x)
  }

  lemma HeadInElements<T>(s: seq<T>)
    ensures if s == [] then Elements(s) == {} else s[0] in Elements(s)
  {
  }

  lemma {:induction false} StrictlyAscendingUnique<T>(d: T -> nat, a: seq<T>, b: seq<T>)
    requires StrictlyAscending(d, a) && StrictlyAscending(d, b)
    requires Elements(a) == Elements(b)
    ensures a == b
  {
    HeadInElements(a);
    HeadInElements(b);
    if a != [] && b != [] {
      assert a[0] in Elements(b);
      assert b[0] in Elements(a);
      var i :| 0 <= i < |b| && b[i] == a[0];
      var j :| 0 <= j < |a| && a[j] == b[0];
      assert i == 0;
      assert Elements(a[1..]) == Elements(b[1..]) by {
        assert Elements(a[1..]) == Elements(a) - {a[0]};
        assert Elements(b[1..]) == Elements(b) - {b[0]};
      }
      StrictlyAscendingUnique(d, a[1..], b[1..]);
      assert a == [a[0]] + a[1..] && b == [b[0]] + b[1..];
    }
  }

  lemma NearestHead<T(!new)>(d: T -> nat, k: nat, all: set<T>, near: seq<T>, x: T)
    requires Nearest(d, k, all, near) && x in all && k > 0
    ensures near != [] && near[0] in all && d(near[0]) <= d(x)
  {
  }

  lemma Exchange<T>(a: set<T>, b: set<T>) returns (p: T, q: T)
    requires |a| == |b| && a != b
    ensures p in a - b && q in b - a
  {
    if a <= b {
      SubsetSize(a, b);
    }
    if b <= a {
      SubsetSize(b, a);
    }
    p :| p in a && p !in b;
    q :| q in b && q !in a;
  }

  // Where no two elements are equally far there is only one list of the k nearest.
  lemma NearestUnique<T(!new)>(d: T -> nat, k: nat, all: set<T>, a: seq<T>, b: seq<T>)
    requires Nearest(d, k, all, a) && Nearest(d, k, all, b)
    requires InjectiveOn(d, all)
    ensures a == b
  {
    SizeOfElements(a);
    SizeOfElements(b);
    if Elements(a) != Elements(b) {
      var p, q := Exchange(Elements(a), Elements(b));
      assert false;
    }
    NearestStrict(d, k, all, a);
    NearestStrict(d, k, all, b);
    StrictlyAscendingUnique(d, a, b);
  }

  lemma NearestStrict<T(!new)>(d: T -> nat, k: nat, all: set<T>, near: seq<T>)
    requires Nearest(d, k, all, near) && InjectiveOn(d, all)
    ensures StrictlyAscending(d, near)
    ensures forall x, y :: x in all && x !in near && y in near ==> d(y) < d(x)
  {
    assert forall i :: 0 <= i < |near| ==> near[i] in Elements(near);
  }

  // Sorting a whole set once and truncating gives its k nearest elements.
  lemma SortOnceIsNearest<T(!new)>(d: T -> nat, k: nat, all: seq<T>)
    requires NoDuplicates(all)
    ensures Nearest(d, k, Elements(all), Take(k, SortBy(d, all)))
  {
    SortByDistinct(d, all);
    TakeIsNearest(d, k, SortBy(d, all));
  }

  lemma TakeIsNearest<T(!new)>(d: T -> nat, k: nat, s: seq<T>)
    requires NoDuplicates(s) && Ascending(d, s)
    ensures Nearest(d, k, Elements(s), Take(k, s))
  {
    SizeOfElements(s);
    if |s| > k {
      assert forall m :: 0 <= m < k ==> s[..k][m] == s[m];
      forall x, y | x in Elements(s) && x !in s[..k] && y in s[..k]
        ensures d(y) <= d(x)
      {
        var i :| 0 <= i < |s| && s[i] == x;
        var j :| 0 <= j < k && s[j] == y;
      }
    }
  }

  // An element that is nearer than none of k listed ones is nearer than none of the first k.
  lemma BeyondTheKth<T(!new)>(d: T -> nat, k: nat, s: seq<T>, near: set<T>, x: T, i: nat)
    requires NoDuplicates(s) && Ascending(d, s) && i < |s| && i < k
    requires near <= Elements(s) && |near| == k
    requires forall z :: z in near ==> d(z) <= d(x)
    ensures d(s[i]) <= d(x)
  {
    SizeAtMost(s[..i]);
    if near <= Elements(s[..i]) {
      SubsetSize(near, Elements(s[..i]));
    }
    var z :| z in near && z !in Elements(s[..i]);
    var j :| 0 <= j < |s| && s[j] == z;
    assert forall m :: 0 <= m < i ==> s[m] in Elements(s[..i]);
  }

  // Merging newcomers into the k nearest of `all` and truncating again loses nothing:
  // it gives the k nearest of `all` and the newcomers together.
  lemma NearestMerge<T(!new)>(d: T -> nat, k: nat, all: set<T>, near: seq<T>, merged: seq<T>)
    requires Nearest(d, k, all, near)
    requires NoDuplicates(merged) && Elements(near) <= Elements(merged)
    ensures Nearest(d, k, all + Elements(merged), Take(k, SortBy(d, merged)))
  {
    SortByDistinct(d, merged);
    SizeOfElements(near);
    NearestOfSorted(d, k, all, near, SortBy(d, merged));
  }

  lemma NearestOfSorted<T(!new)>(d: T -> nat, k: nat, all: set<T>, near: seq<T>, s: seq<T>)
    requires Nearest(d, k, all, near) && |Elements(near)| == |near|
    requires NoDuplicates(s) && Ascending(d, s) && Elements(near) <= Elements(s)
    ensures Nearest(d, k, all + Elements(s), Take(k, s))
  {
    TakeIsNearest(d, k, s);
    if |all| <= k {
      SubsetSize(Elements(near), all);
      assert all + Elements(s) == Elements(s);
    } else {
      SubsetSize(Elements(near), Elements(s));
      SubsetSize(all, all + Elements(s));
      var r := Take(k, s);
      assert forall i :: 0 <= i < |r| ==> r[i] == s[i];
      assert Elements(r) <= Elements(s);
      forall x, y | x in all + Elements(s) && x !in r && y in r
        ensures d(y) <= d(x)
      {
        if x !in Elements(s) {
          var i :| 0 <= i < |r| && r[i] == y;
          assert forall z :: z in Elements(near) ==> z in near && d(z) <= d(x);
          BeyondTheKth(d, k, s, Elements(near), x, i);
        }
      }
    }
  }
}
