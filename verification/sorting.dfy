/** Rust's stable `sort_by`, for comparators that compare a string key of each
    element: a stable insertion sort on sequences. */
module Sorting {

  import opened Strings

  /** Keys are non-decreasing along `s`. */
  predicate SortedBy<T>(s: seq<T>, key: T -> string) {
    forall i, j :: 0 <= i < j < |s| ==> LexLe(key(s[i]), key(s[j]))
  }

  /** Where `x` goes in `s`: before the first element whose key is not
      smaller than the key of `x`. */
  function InsertPos<T>(x: T, s: seq<T>, key: T -> string): (r: nat)
    ensures r <= |s|
    ensures forall k :: 0 <= k < r ==> !LexLe(key(x), key(s[k]))
    ensures r < |s| ==> LexLe(key(x), key(s[r]))
  {
    if |s| == 0 || LexLe(key(x), key(s[0])) then 0 else 1 + InsertPos(x, s[1..], key)
  }

  lemma InsertKeepsOrder<T>(x: T, s: seq<T>, key: T -> string, i: nat)
    requires SortedBy(s, key)
    requires i <= |s|
    requires forall k :: 0 <= k < i ==> !LexLe(key(x), key(s[k]))
    requires i < |s| ==> LexLe(key(x), key(s[i]))
    ensures SortedBy(s[..i] + [x] + s[i..], key)
  {
    var r := s[..i] + [x] + s[i..];
    forall a, b | 0 <= a < b < |r|
      ensures LexLe(key(r[a]), key(r[b]))
    {
      if b < i || a > i {
        assert r[a] == if a < i then s[a] else s[a - 1];
        assert r[b] == if b < i then s[b] else s[b - 1];
      } else if a < i && b == i {
        LexLeTotal(key(x), key(s[a]));
      } else if a < i {
        assert r[b] == s[b - 1];
      } else {
        assert r[b] == s[b - 1];
        if i < b - 1 {
          LexLeTrans(key(x), key(s[i]), key(s[b - 1]));
        }
      }
    }
  }

  /** `x` placed at its insertion point in `s`. */
  function Splice<T>(x: T, s: seq<T>, key: T -> string): seq<T> {
    var i := InsertPos(x, s, key);
    s[..i] + [x] + s[i..]
  }

  /** Insertion of one element into a sorted sequence. */
  function Insert<T>(x: T, s: seq<T>, key: T -> string): (r: seq<T>)
    requires SortedBy(s, key)
    ensures SortedBy(r, key)
    ensures multiset(r) == multiset(s) + multiset{x}
  {
    var i := InsertPos(x, s, key);
    InsertKeepsOrder(x, s, key, i);
    assert s == s[..i] + s[i..];
    Splice(x, s, key)
  }

  /** The stable sort: the result is ordered by key and is a permutation of
      the input. */
  function SortBy<T>(s: seq<T>, key: T -> string): (r: seq<T>)
    ensures SortedBy(r, key)
    ensures multiset(r) == multiset(s)
  {
    if |s| == 0 then []
    else
      assert s == [s[0]] + s[1..];
      Insert(s[0], SortBy(s[1..], key), key)
  }

  /** A permutation has the length of the original. */
  lemma SameLength<T>(a: seq<T>, b: seq<T>)
    requires multiset(a) == multiset(b)
    ensures |a| == |b|
  {
    assert |a| == |multiset(a)|;
  }

  /** A permutation has the same members. */
  lemma SameMembers<T>(a: seq<T>, b: seq<T>)
    requires multiset(a) == multiset(b)
    ensures forall x :: x in a <==> x in b
  {
    forall x
      ensures x in a <==> x in b
    {
      assert x in a <==> x in multiset(a);
      assert x in b <==> x in multiset(b);
    }
  }

  /** The elements of `s` whose key is `k`, in their order in `s`. */
  function WithKey<T>(s: seq<T>, key: T -> string, k: string): seq<T> {
    if |s| == 0 then []
    else (if key(s[0]) == k then [s[0]] else []) + WithKey(s[1..], key, k)
  }

  lemma {:induction false} WithKeyAppend<T>(a: seq<T>, b: seq<T>, key: T -> string, k: string)
    ensures WithKey(a + b, key, k) == WithKey(a, key, k) + WithKey(b, key, k)
    decreases |a|
  {
    if |a| > 0 {
      assert (a + b)[0] == a[0];
      assert (a + b)[1..] == a[1..] + b;
      WithKeyAppend(a[1..], b, key, k);
    } else {
      assert a + b == b;
    }
  }

  lemma {:induction false} WithKeyNone<T>(s: seq<T>, key: T -> string, k: string)
    requires forall j :: 0 <= j < |s| ==> key(s[j]) != k
    ensures WithKey(s, key, k) == []
    decreases |s|
  {
    if |s| > 0 {
      WithKeyNone(s[1..], key, k);
    }
  }

  /** Splicing `x` into `lo + hi` adds it to its key class ahead of `hi`'s
      members, provided `lo` holds none of that class. */
  lemma SpliceWithKey<T>(lo: seq<T>, x: T, hi: seq<T>, key: T -> string, k: string)
    requires key(x) == k ==> forall j :: 0 <= j < |lo| ==> key(lo[j]) != k
    ensures WithKey(lo + [x] + hi, key, k) == (if key(x) == k then [x] else []) + WithKey(lo + hi, key, k)
  {
    WithKeyAppend(lo + [x], hi, key, k);
    WithKeyAppend(lo, [x], key, k);
    WithKeyAppend(lo, hi, key, k);
    assert WithKey([x], key, k) == if key(x) == k then [x] else [] by {
      assert [x][1..] == [];
    }
    if key(x) == k {
      WithKeyNone(lo, key, k);
    }
  }

  /** Everything ahead of the insertion point has a key other than `x`'s. */
  lemma BeforeInsertPos<T>(x: T, t: seq<T>, key: T -> string)
    ensures forall j :: 0 <= j < InsertPos(x, t, key) ==> key(t[j]) != key(x)
  {
    LexLeRefl(key(x));
  }

  /** Inserting `x` puts it ahead of every element with the same key. */
  lemma InsertStable<T>(x: T, t: seq<T>, key: T -> string, k: string)
    ensures WithKey(Splice(x, t, key), key, k)
            == (if key(x) == k then [x] else []) + WithKey(t, key, k)
  {
    var i := InsertPos(x, t, key);
    var lo, hi := t[..i], t[i..];
    assert t == lo + hi;
    BeforeInsertPos(x, t, key);
    assert forall j :: 0 <= j < |lo| ==> lo[j] == t[j];
    SpliceWithKey(lo, x, hi, key, k);
  }

  /** Stability: elements with equal keys keep their relative input order.
      Together with SortedBy and the permutation this fixes the output. */
  lemma {:induction false} SortStable<T>(s: seq<T>, key: T -> string, k: string)
    ensures WithKey(SortBy(s, key), key, k) == WithKey(s, key, k)
    decreases |s|
  {
    if |s| > 0 {
      SortStable(s[1..], key, k);
      InsertStable(s[0], SortBy(s[1..], key), key, k);
    }
  }
}
