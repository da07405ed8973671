/** Searching and splitting byte strings, as Python's `find`, `split` and `partition` do. */
module ByteStrings {

  // `m` stands at position `i` of `s`.
  predicate OccursAt(s: string, m: string, i: nat)
  {
    i + |m| <= |s| && s[i..i + |m|] == m
  }

  // The first occurrence of `m`; the length of `s` when there is none.
  function Find(s: string, m: string): (i: nat)
    requires m != ""
    ensures i == |s| || OccursAt(s, m, i)
    ensures forall j :: 0 <= j < i ==> !OccursAt(s, m, j)
  {
    FindFrom(s, m, 0)
  }

  function FindFrom(s: string, m: string, from: nat): (i: nat)
    requires m != "" && from <= |s|
    ensures from <= i <= |s|
    ensures i == |s| || OccursAt(s, m, i)
    ensures forall j :: from <= j < i ==> !OccursAt(s, m, j)
    decreases |s| - from
  {
    if from == |s| || OccursAt(s, m, from) then from else FindFrom(s, m, from + 1)
  }

  lemma FindIs(s: string, m: string, i: nat)
    requires m != "" && OccursAt(s, m, i)
    requires forall j :: 0 <= j < i ==> !OccursAt(s, m, j)
    ensures Find(s, m) == i
  {
  }

  lemma FindNothing(s: string, m: string)
    requires m != "" && Free(s, m)
    ensures Find(s, m) == |s|
  {
  }

  // The pieces between the occurrences, found from the left and without overlap.
  function Split(s: string, m: string): seq<string>
    requires m != ""
    decreases |s|
  {
    var i := Find(s, m);
    if i == |s| then [s] else [s[..i]] + Split(s[i + |m|..], m)
  }

  function Join(pieces: seq<string>, m: string): string
  {
    if pieces == [] then ""
    else if |pieces| == 1 then pieces[0]
    else pieces[0] + m + Join(pieces[1..], m)
  }

  ghost predicate Free(s: string, m: string)
  {
    forall i :: 0 <= i <= |s| ==> !OccursAt(s, m, i)
  }

  // When `m` follows the piece, it is found right behind the piece and not earlier.
  ghost predicate Clean(piece: string, m: string)
  {
    forall i :: 0 <= i < |piece| ==> !OccursAt(piece + m, m, i)
  }

  lemma FindBehindClean(piece: string, m: string, rest: string)
    requires m != "" && Clean(piece, m)
    ensures Find(piece + m + rest, m) == |piece|
  {
    var s := piece + m + rest;
    assert OccursAt(s, m, |piece|);
    forall j | 0 <= j < |piece|
      ensures !OccursAt(s, m, j)
    {
      assert s[j..j + |m|] == (piece + m)[j..j + |m|];
      assert !OccursAt(piece + m, m, j);
    }
    FindIs(s, m, |piece|);
  }

  // Splitting undoes joining.
  lemma {:induction false} SplitJoin(pieces: seq<string>, m: string)
    requires m != "" && pieces != []
    requires forall i :: 0 <= i < |pieces| - 1 ==> Clean(pieces[i], m)
    requires Free(pieces[|pieces| - 1], m)
    ensures Split(Join(pieces, m), m) == pieces
    decreases |pieces|
  {
    var s := Join(pieces, m);
    if |pieces| == 1 {
      FindNothing(s, m);
    } else {
      var head, tail := pieces[0], pieces[1..];
      var rest := Join(tail, m);
      FindBehindClean(head, m, rest);
      assert forall i :: 0 <= i < |tail| ==> tail[i] == pieces[i + 1];
      SplitJoin(tail, m);
      assert s[..|head|] == head && s[|head| + |m|..] == rest;
    }
  }

  // An occurrence cannot reach across a character that `m` does not have.
  lemma FreeAcross(a: string, c: char, b: string, m: string)
    requires c !in m && Free(a, m) && Free(b, m) && m != ""
    ensures Free(a + [c] + b, m)
  {
    var s := a + [c] + b;
    forall i | 0 <= i <= |s|
      ensures !OccursAt(s, m, i)
    {
      if i + |m| <= |a| {
        assert s[i..i + |m|] == a[i..i + |m|];
        assert !OccursAt(a, m, i);
      } else if |a| < i && i + |m| <= |s| {
        var k := i - |a| - 1;
        assert s[i..i + |m|] == b[k..k + |m|];
        assert !OccursAt(b, m, k);
      } else if i + |m| <= |s| {
        assert s[i..i + |m|][|a| - i] == c;
      }
    }
  }

  // A piece that ends in such a character is clean as soon as it is free.
  lemma CleanWhenGuarded(a: string, c: char, m: string)
    requires c !in m && m != "" && Free(a + [c], m)
    ensures Clean(a + [c], m)
  {
    var p := a + [c];
    forall i | 0 <= i < |p|
      ensures !OccursAt(p + m, m, i)
    {
      if i + |m| <= |p| {
        assert (p + m)[i..i + |m|] == p[i..i + |m|];
        assert !OccursAt(p, m, i);
      } else {
        assert (p + m)[i..i + |m|][|p| - 1 - i] == c;
      }
    }
  }

  // A text without two dashes in a row is free of anything that starts with two.
  lemma FreeWithoutDashes(s: string, m: string)
    requires |m| >= 2 && m[0] == '-' && m[1] == '-'
    requires forall i :: 0 <= i < |s| - 1 && s[i] == '-' ==> s[i + 1] != '-'
    ensures Free(s, m)
  {
  }

  // A text without the first character of `m` is clean of it.
  lemma CleanWithoutFirst(s: string, m: string)
    requires m != "" && m[0] !in s
    ensures Clean(s, m) && Free(s, m)
  {
  }

  // ---------- white space and case ----------

  predicate IsSpace(c: char)
  {
    c == ' ' || c == '\t' || c == '\n' || c == '\r' || c == 11 as char || c == 12 as char
  }

  // Text, unlike bytes, also counts four control characters as white space.
  predicate IsTextSpace(c: char)
  {
    IsSpace(c) || 28 as char <= c <= 31 as char
  }

  function Strip(s: string, drop: char -> bool): string
  {
    if s == "" then ""
    else if drop(s[0]) then Strip(s[1..], drop)
    else if drop(s[|s| - 1]) then Strip(s[..|s| - 1], drop)
    else s
  }

  function LowerChar(c: char): char
  {
    if 'A' <= c <= 'Z' then c + 32 as char else c
  }

  function Lower(s: string): string
  {
    seq(|s|, i requires 0 <= i < |s| => LowerChar(s[i]))
  }

  predicate StartsWith(s: string, p: string)
  {
    |p| <= |s| && s[..|p|] == p
  }

  predicate EndsWith(s: string, p: string)
  {
    |p| <= |s| && s[|s| - |p|..] == p
  }
}
