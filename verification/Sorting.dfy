/** Sorting by a pair of integers, compared lexicographically.  It stands for the program's calls
    to a stable library sort, whose comparison functions all have this shape. */
module Sorting {
  type Key = (int, int)

  predicate Less(a: Key, b: Key) {
    a.0 < b.0 || (a.0 == b.0 && a.1 < b.1)
  }

  ghost predicate SortedBy<T(!new)>(key: T -> Key, s: seq<T>) {
    forall i, j :: 0 <= i < j < |s| ==> !Less(key(s[j]), key(s[i]))
  }

  ghost predicate StrictlySorted(keys: seq<Key>) {
    forall i, j :: 0 <= i < j < |keys| ==> Less(keys[i], keys[j])
  }

  /** Inserts `x` into a sorted sequence, after the elements with an equal key. */
  function Insert<T>(key: T -> Key, x: T, s: seq<T>): seq<T> {
    if s == [] then [x]
    else if Less(key(x), key(s[0])) then [x] + s
    else [s[0]] + Insert(key, x, s[1..])
  }

  function Sort<T>(key: T -> Key, s: seq<T>): seq<T> {
    if s == [] then [] else Insert(key, s[|s| - 1], Sort(key, s[..|s| - 1]))
  }

  lemma {:induction false} InsertElements<T(!new)>(key: T -> Key, x: T, s: seq<T>)
    ensures multiset(Insert(key, x, s)) == multiset(s) + multiset{x}
  {
    if s != [] {
      InsertElements(key, x, s[1..]);
      assert s == [s[0]] + s[1..];
    }
  }

  lemma PrependSorted<T(!new)>(key: T -> Key, x: T, s: seq<T>)
    requires SortedBy(key, s)
    requires forall i :: 0 <= i < |s| ==> !Less(key(s[i]), key(x))
    ensures SortedBy(key, [x] + s)
  {
  }

  lemma {:induction false} InsertSorts<T(!new)>(key: T -> Key, x: T, s: seq<T>)
    requires SortedBy(key, s)
    ensures SortedBy(key, Insert(key, x, s))
  {
    if s == [] {
    } else if Less(key(x), key(s[0])) {
      PrependSorted(key, x, s);
    } else {
      InsertSorts(key, x, s[1..]);
      var r := Insert(key, x, s[1..]);
      forall i | 0 <= i < |r|
        ensures !Less(key(r[i]), key(s[0]))
      {
        InsertElements(key, x, s[1..]);
        assert r[i] in multiset(r);
        assert r[i] in s[1..] || r[i] == x;
      }
      PrependSorted(key, s[0], r);
    }
  }

  lemma {:induction false} SortSorts<T(!new)>(key: T -> Key, s: seq<T>)
    ensures SortedBy(key, Sort(key, s))
    ensures multiset(Sort(key, s)) == multiset(s)
  {
    if s != [] {
      SortSorts(key, s[..|s| - 1]);
      InsertSorts(key, s[|s| - 1], Sort(key, s[..|s| - 1]));
      InsertElements(key, s[|s| - 1], Sort(key, s[..|s| - 1]));
      assert s == s[..|s| - 1] + [s[|s| - 1]];
    }
  }

  ghost predicate NoRepeats<T(!new)>(s: seq<T>) {
    forall i, j :: 0 <= i < j < |s| ==> s[i] != s[j]
  }

  /** What a caller needs of a sort: the same elements, in order, none of them repeated. */
  lemma SortOfDistinct<T(!new)>(key: T -> Key, s: seq<T>)
    requires NoRepeats(s)
    ensures SortedBy(key, Sort(key, s)) && |Sort(key, s)| == |s|
    ensures forall x :: x in Sort(key, s) <==> x in s
    ensures NoRepeats(Sort(key, s))
  {
    SortSorts(key, s);
    SameElements(s, Sort(key, s));
  }

  function Keys<T>(key: T -> Key, s: seq<T>): seq<Key> {
    seq(|s|, i requires 0 <= i < |s| => key(s[i]))
  }

  /** Sorting what no two elements share a key of gives a strictly sorted list of keys. */
  lemma SortIsStrict<T(!new)>(key: T -> Key, s: seq<T>)
    requires NoRepeats(s)
    requires forall x, y :: x in s && y in s && key(x) == key(y) ==> x == y
    ensures StrictlySorted(Keys(key, Sort(key, s)))
  {
    SortOfDistinct(key, s);
    var r := Sort(key, s);
    forall i, j | 0 <= i < j < |r|
      ensures Less(Keys(key, r)[i], Keys(key, r)[j])
    {
      assert r[i] in s && r[j] in s && r[i] != r[j];
      assert !Less(key(r[j]), key(r[i]));
    }
  }

  lemma SameElements<T(!new)>(s: seq<T>, r: seq<T>)
    requires multiset(r) == multiset(s) && NoRepeats(s)
    ensures |r| == |s| && NoRepeats(r)
    ensures forall x :: x in r <==> x in s
  {
    assert |multiset(r)| == |multiset(s)|;
    forall x
      ensures x in r <==> x in s
    {
      assert x in r <==> x in multiset(r);
      assert x in s <==> x in multiset(s);
    }
    forall i, j | 0 <= i < j < |r|
      ensures r[i] != r[j]
    {
      DistinctCounts(s, r[i]);
      if r[i] == r[j] {
        RepeatCounts(r, i, j);
      }
    }
  }

  lemma {:induction false} DistinctCounts<T(!new)>(s: seq<T>, x: T)
    requires NoRepeats(s)
    ensures multiset(s)[x] <= 1
  {
    if s != [] {
      DistinctCounts(s[1..], x);
      assert s == [s[0]] + s[1..];
      if s[0] == x {
        assert x !in s[1..];
        assert x !in multiset(s[1..]);
      }
    }
  }

  lemma RepeatCounts<T>(s: seq<T>, i: nat, j: nat)
    requires i < j < |s| && s[i] == s[j]
    ensures multiset(s)[s[i]] >= 2
  {
    assert s == s[..j] + [s[j]] + s[j + 1..];
    assert s[i] in s[..j] by { assert s[..j][i] == s[i]; }
    assert s[i] in multiset(s[..j]);
  }

  lemma BothEmpty<T(!new)>(a: seq<T>, b: seq<T>)
    requires forall k :: k in a <==> k in b
    ensures a == [] <==> b == []
  {
    if a != [] {
      assert a[0] in b;
    }
    if b != [] {
      assert b[0] in a;
    }
  }

  /** A strictly sorted sequence is determined by the set of its elements. */
  lemma {:induction false} StrictlySortedUnique(a: seq<Key>, b: seq<Key>)
    requires StrictlySorted(a) && StrictlySorted(b)
    requires forall k :: k in a <==> k in b
    ensures a == b
  {
    BothEmpty(a, b);
    if a != [] {
      assert a[0] in b && (b != [] ==> b[0] in a);
      assert a[0] == b[0];
      var a', b' := a[1..], b[1..];
      forall k
        ensures k in a' <==> k in b'
      {
        assert a == [a[0]] + a' && b == [b[0]] + b';
        assert a[0] !in a' && b[0] !in b';
        assert k in a <==> k in b;
      }
      StrictlySortedUnique(a', b');
      assert a == [a[0]] + a' && b == [b[0]] + b';
    }
  }
}
