/**
 * Ordering of rows by their string primary key.
 *
 * `order_by('id')` on a text primary key is modelled as the lexicographic
 * order on code points, which is what a binary collation gives.
 */
module Ordering {

  /** Strict lexicographic order on strings, character by character. */
  predicate Below(a: string, b: string)
  {
    if a == [] then b != []
    else if b == [] then false
    else if a[0] != b[0] then a[0] < b[0]
    else Below(a[1..], b[1..])
  }

  lemma {:induction false} BelowIrreflexive(a: string)
    ensures !Below(a, a)
  {
    if a != [] {
      BelowIrreflexive(a[1..]);
    }
  }

  lemma {:induction false} BelowTransitive(a: string, b: string, c: string)
    requires Below(a, b) && Below(b, c)
    ensures Below(a, c)
  {
    if a != [] && a[0] == b[0] && b[0] == c[0] {
      BelowTransitive(a[1..], b[1..], c[1..]);
    }
  }

  lemma {:induction false} BelowTotal(a: string, b: string)
    ensures a == b || Below(a, b) || Below(b, a)
  {
    if a != [] && b != [] && a[0] == b[0] {
      BelowTotal(a[1..], b[1..]);
      if a[1..] == b[1..] {
        assert a == [a[0]] + a[1..] && b == [b[0]] + b[1..];
      }
    }
  }

  lemma BelowAsymmetric(a: string, b: string)
    requires Below(a, b)
    ensures !Below(b, a)
  {
    if Below(b, a) {
      BelowTransitive(a, b, a);
      BelowIrreflexive(a);
    }
  }

  /** Every element is strictly below every later one (so there are no repeats). */
  predicate Ascending(s: seq<string>)
  {
    forall i, j :: 0 <= i < j < |s| ==> Below(s[i], s[j])
  }

  lemma AboveAll(x: string, s: seq<string>)
    requires Ascending(s) && s != [] && Below(x, s[0])
    ensures forall j :: 0 <= j < |s| ==> Below(x, s[j])
  {
    forall j | 0 < j < |s| {
      BelowTransitive(x, s[0], s[j]);
    }
  }

  /** Inserts `x` into an ascending sequence, keeping it ascending. */
  function Insert(s: seq<string>, x: string): (r: seq<string>)
    requires Ascending(s)
    ensures Ascending(r)
    ensures forall y :: y in r <==> y in s || y == x
    decreases |s|
  {
    if s == [] then [x]
    else if x == s[0] then s
    else if Below(x, s[0]) then
      AboveAll(x, s);
      [x] + s
    else
      BelowTotal(x, s[0]);
      var t := Insert(s[1..], x);
      assert forall y :: y in t ==> Below(s[0], y) by {
        forall y | y in t
          ensures Below(s[0], y)
        {
          if y != x {
            var k :| 0 <= k < |s[1..]| && s[1..][k] == y;
            assert s[k + 1] == y;
          }
        }
      }
      [s[0]] + t
  }

  /** The keys of `ks` in ascending order, each once. */
  method SortedKeys(ks: set<string>) returns (r: seq<string>)
    ensures Ascending(r)
    ensures forall k :: k in r <==> k in ks
  {
    r := [];
    var rest := ks;
    while rest != {}
      invariant rest <= ks
      invariant Ascending(r)
      invariant forall k :: k in r <==> k in ks && k !in rest
      decreases rest
    {
      var x :| x in rest;
      r := Insert(r, x);
      rest := rest - {x};
    }
  }

  lemma HeadIsMember(s: seq<string>)
    requires s != []
    ensures s[0] in s
  {
  }

  /** Two ascending sequences with the same elements are the same sequence. */
  lemma {:induction false} AscendingUnique(a: seq<string>, b: seq<string>)
    requires Ascending(a) && Ascending(b)
    requires forall x :: x in a <==> x in b
    ensures a == b
    decreases |a|
  {
    if a == [] && b != [] {
      HeadIsMember(b);
      assert false;
    } else if a != [] && b == [] {
      HeadIsMember(a);
      assert false;
    } else if a != [] && b != [] {
      if a[0] != b[0] {
        assert a[0] in b && b[0] in a;
        var j :| 0 <= j < |b| && b[j] == a[0];
        var i :| 0 <= i < |a| && a[i] == b[0];
        BelowAsymmetric(a[0], a[i]);
        assert false;
      }
      BelowIrreflexive(a[0]);
      forall x
        ensures x in a[1..] <==> x in b[1..]
      {
        assert x in a[1..] <==> x in a && x != a[0];
        assert x in b[1..] <==> x in b && x != b[0];
      }
      AscendingUnique(a[1..], b[1..]);
      assert a == [a[0]] + a[1..] && b == [b[0]] + b[1..];
    }
  }

  /** Each key of `m` names the row stored under it (the key is the row's primary key). */
  ghost predicate Keyed<T>(m: map<string, T>, key: T -> string)
  {
    forall k :: k in m ==> key(m[k]) == k
  }

  /** `r` lists the rows of `m`, each once, in ascending key order. */
  ghost predicate ListsInKeyOrder<T>(m: map<string, T>, key: T -> string, r: seq<T>)
  {
    && (forall i :: 0 <= i < |r| ==> key(r[i]) in m && m[key(r[i])] == r[i])
    && (forall i, j :: 0 <= i < j < |r| ==> Below(key(r[i]), key(r[j])))
    && (forall k :: k in m ==> m[k] in r)
  }

  /** The rows of `m` ordered by key, as `order_by('id')` returns them. */
  method ListInKeyOrder<T(==)>(m: map<string, T>, key: T -> string) returns (r: seq<T>)
    requires Keyed(m, key)
    ensures ListsInKeyOrder(m, key, r)
  {
    var ks := SortedKeys(m.Keys);
    r := [];
    var n := 0;
    while n < |ks|
      invariant n <= |ks|
      invariant |r| == n
      invariant forall i :: 0 <= i < n ==> r[i] == m[ks[i]]
    {
      r := r + [m[ks[n]]];
      n := n + 1;
    }
    forall k | k in m
      ensures m[k] in r
    {
      var i :| 0 <= i < |ks| && ks[i] == k;
      assert r[i] == m[k];
    }
  }

  /** The sequence of keys of the rows of `r`. */
  function KeySeq<T>(r: seq<T>, key: T -> string): (ks: seq<string>)
    ensures |ks| == |r|
    ensures forall i :: 0 <= i < |r| ==> ks[i] == key(r[i])
  {
    if r == [] then [] else [key(r[0])] + KeySeq(r[1..], key)
  }

  /** A listing of `m` holds exactly the keys of `m`. */
  lemma KeySeqCovers<T>(m: map<string, T>, key: T -> string, r: seq<T>)
    requires Keyed(m, key) && ListsInKeyOrder(m, key, r)
    ensures forall x :: x in KeySeq(r, key) <==> x in m.Keys
  {
    var ks := KeySeq(r, key);
    forall x | x in m
      ensures x in ks
    {
      var i :| 0 <= i < |r| && r[i] == m[x];
      assert ks[i] == x;
    }
  }

  /** The listing of a keyed table in key order is unique. */
  lemma ListingUnique<T>(m: map<string, T>, key: T -> string, r1: seq<T>, r2: seq<T>)
    requires Keyed(m, key)
    requires ListsInKeyOrder(m, key, r1) && ListsInKeyOrder(m, key, r2)
    ensures r1 == r2
  {
    var k1, k2 := KeySeq(r1, key), KeySeq(r2, key);
    KeySeqCovers(m, key, r1);
    KeySeqCovers(m, key, r2);
    AscendingUnique(k1, k2);
    assert forall i :: 0 <= i < |r1| ==> r1[i] == m[k1[i]] == r2[i];
  }
}
