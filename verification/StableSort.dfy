/** A stable sort by an octet-string key, and what equality of two sorted lists says of the originals. */
module StableSort {
  import opened Octets

  /** Lexicographic order, that of Python strings of hexadecimal digits or ASCII characters. */
  predicate Leq(a: Bytes, b: Bytes) {
    a == [] || (b != [] && (a[0] < b[0] || (a[0] == b[0] && Leq(a[1..], b[1..]))))
  }

  lemma {:induction false} LeqTotal(a: Bytes, b: Bytes)
    ensures Leq(a, b) || Leq(b, a)
    ensures Leq(a, b) && Leq(b, a) ==> a == b
  {
    if a != [] && b != [] && a[0] == b[0] {
      LeqTotal(a[1..], b[1..]);
      assert a == [a[0]] + a[1..] && b == [b[0]] + b[1..];
    }
  }

  lemma {:induction false} LeqTrans(a: Bytes, b: Bytes, c: Bytes)
    requires Leq(a, b) && Leq(b, c)
    ensures Leq(a, c)
  {
    if a != [] && a[0] == b[0] == c[0] {
      LeqTrans(a[1..], b[1..], c[1..]);
    }
  }

  /** A string comes before another if it is a front of it, or less at the first place where they differ. */
  lemma {:induction false} LeqIff(a: Bytes, b: Bytes)
    ensures Leq(a, b) <==> a <= b || exists i :: 0 <= i < |a| && i < |b| && a[..i] == b[..i] && a[i] < b[i]
  {
    if a == [] || b == [] {
    } else if a[0] != b[0] {
      assert a[..0] == b[..0];
      forall i | 0 < i < |a| && i < |b| ensures a[..i] != b[..i] {
        assert a[..i][0] != b[..i][0];
      }
    } else {
      LeqIff(a[1..], b[1..]);
      assert a == [a[0]] + a[1..] && b == [b[0]] + b[1..];
      LessLater(a, b);
    }
  }

  lemma LessLater(a: Bytes, b: Bytes)
    requires a != [] && b != [] && a[0] == b[0]
    ensures (exists i :: 0 <= i < |a| && i < |b| && a[..i] == b[..i] && a[i] < b[i])
            <==> exists i :: 0 <= i < |a[1..]| && i < |b[1..]| && a[1..][..i] == b[1..][..i] && a[1..][i] < b[1..][i]
  {
    if i :| 0 <= i < |a| && i < |b| && a[..i] == b[..i] && a[i] < b[i] {
      assert a[1..][..i - 1] == a[..i][1..] && b[1..][..i - 1] == b[..i][1..];
      assert a[1..][i - 1] < b[1..][i - 1];
    }
    if i :| 0 <= i < |a[1..]| && i < |b[1..]| && a[1..][..i] == b[1..][..i] && a[1..][i] < b[1..][i] {
      assert a[..i + 1] == [a[0]] + a[1..][..i] && b[..i + 1] == [b[0]] + b[1..][..i];
      assert a[i + 1] < b[i + 1];
    }
  }

  function Insert<T>(key: T -> Bytes, x: T, s: seq<T>): seq<T> {
    if s == [] then [x]
    else if Leq(key(x), key(s[0])) then [x] + s
    else [s[0]] + Insert(key, x, s[1..])
  }

  function Sort<T>(key: T -> Bytes, s: seq<T>): seq<T> {
    if s == [] then [] else Insert(key, s[0], Sort(key, s[1..]))
  }

  /** The elements with one key, in order. */
  function Only<T>(key: T -> Bytes, k: Bytes, s: seq<T>): (r: seq<T>)
    ensures forall x :: x in r ==> x in s && key(x) == k
  {
    if s == [] then []
    else (if key(s[0]) == k then [s[0]] else []) + Only(key, k, s[1..])
  }

  /** The same elements of every key, in the same order. */
  ghost predicate SamePerKey<T>(key: T -> Bytes, s: seq<T>, t: seq<T>) {
    forall k :: Only(key, k, s) == Only(key, k, t)
  }

  ghost predicate Sorted<T>(key: T -> Bytes, s: seq<T>) {
    s == [] || ((forall x :: x in s[1..] ==> Leq(key(s[0]), key(x))) && Sorted(key, s[1..]))
  }

  lemma {:induction false} InsertOnly<T>(key: T -> Bytes, x: T, s: seq<T>, k: Bytes)
    ensures Only(key, k, Insert(key, x, s)) == (if key(x) == k then [x] else []) + Only(key, k, s)
  {
    hide Leq;
    if s == [] {
    } else if Leq(key(x), key(s[0])) {
      assert ([x] + s)[1..] == s;
    } else {
      InsertOnly(key, x, s[1..], k);
      var r := Insert(key, x, s[1..]);
      assert ([s[0]] + r)[1..] == r;
      LeqTotal(key(x), key(s[0]));
      if key(x) == k {
        assert key(s[0]) != k;
      }
    }
  }

  lemma {:induction false} InsertMultiset<T>(key: T -> Bytes, x: T, s: seq<T>)
    ensures multiset(Insert(key, x, s)) == multiset{x} + multiset(s)
  {
    if s == [] {
    } else if Leq(key(x), key(s[0])) {
    } else {
      InsertMultiset(key, x, s[1..]);
      assert s == [s[0]] + s[1..];
    }
  }

  lemma {:induction false} InsertSorted<T>(key: T -> Bytes, x: T, s: seq<T>)
    requires Sorted(key, s)
    ensures Sorted(key, Insert(key, x, s))
  {
    if s == [] {
    } else if Leq(key(x), key(s[0])) {
      assert ([x] + s)[1..] == s;
      forall y | y in s ensures Leq(key(x), key(y)) {
        if y != s[0] {
          assert y in s[1..];
          LeqTrans(key(x), key(s[0]), key(y));
        }
      }
    } else {
      InsertSorted(key, x, s[1..]);
      InsertMultiset(key, x, s[1..]);
      var r := Insert(key, x, s[1..]);
      assert ([s[0]] + r)[1..] == r;
      LeqTotal(key(x), key(s[0]));
      forall y | y in r ensures Leq(key(s[0]), key(y)) {
        assert y in multiset(r);
        assert y == x || y in s[1..];
      }
    }
  }

  /** The sort keeps the elements, and those of one key in their order. */
  lemma {:induction false} SortKeeps<T>(key: T -> Bytes, s: seq<T>)
    ensures Sorted(key, Sort(key, s)) && multiset(Sort(key, s)) == multiset(s)
    ensures forall k :: Only(key, k, Sort(key, s)) == Only(key, k, s)
  {
    if s != [] {
      SortKeeps(key, s[1..]);
      var r := Sort(key, s[1..]);
      InsertSorted(key, s[0], r);
      InsertMultiset(key, s[0], r);
      assert s == [s[0]] + s[1..];
      forall k ensures Only(key, k, Sort(key, s)) == Only(key, k, s) {
        InsertOnly(key, s[0], r, k);
      }
    }
  }

  lemma {:induction false} OnlyHas<T>(key: T -> Bytes, s: seq<T>, x: T)
    requires x in s
    ensures x in Only(key, key(x), s)
  {
    if s[0] != x {
      OnlyHas(key, s[1..], x);
    }
  }

  /** A sorted list is determined by its elements of each key. */
  lemma {:induction false} SortedDetermined<T>(key: T -> Bytes, s: seq<T>, t: seq<T>)
    requires Sorted(key, s) && Sorted(key, t) && SamePerKey(key, s, t)
    ensures s == t
    decreases |s|
  {
    if s == [] {
    } else {
      OnlyHas(key, s, s[0]);
      assert s[0] in Only(key, key(s[0]), t);
      OnlyHas(key, t, t[0]);
      assert t[0] in Only(key, key(t[0]), s);
      FirstLeast(key, s, t[0]);
      FirstLeast(key, t, s[0]);
      LeqTotal(key(s[0]), key(t[0]));
      var k := key(s[0]);
      assert Only(key, k, s)[0] == s[0] && Only(key, k, t)[0] == t[0];
      forall k ensures Only(key, k, s[1..]) == Only(key, k, t[1..]) {
        assert Only(key, k, s) == Only(key, k, t);
        if key(s[0]) == k {
          assert Only(key, k, s)[1..] == Only(key, k, s[1..]) && Only(key, k, t)[1..] == Only(key, k, t[1..]);
        } else {
          assert [] + Only(key, k, s[1..]) == Only(key, k, s[1..]) && [] + Only(key, k, t[1..]) == Only(key, k, t[1..]);
        }
      }
      SortedDetermined(key, s[1..], t[1..]);
      assert s == [s[0]] + s[1..] && t == [t[0]] + t[1..];
    }
  }

  lemma FirstLeast<T>(key: T -> Bytes, s: seq<T>, x: T)
    requires Sorted(key, s) && s != [] && x in s
    ensures Leq(key(s[0]), key(x))
  {
    if x == s[0] {
      LeqTotal(key(x), key(x));
    } else {
      assert x in s[1..];
    }
  }

  lemma SortSame<T>(key: T -> Bytes, s: seq<T>)
    ensures SamePerKey(key, Sort(key, s), s) && Sorted(key, Sort(key, s)) && multiset(Sort(key, s)) == multiset(s)
  {
    SortKeeps(key, s);
  }

  lemma SamePerKeyJoins<T>(key: T -> Bytes, s: seq<T>, t: seq<T>, u: seq<T>)
    requires SamePerKey(key, s, t) && SamePerKey(key, s, u)
    ensures SamePerKey(key, t, u)
  {
    forall k ensures Only(key, k, t) == Only(key, k, u) {
      assert Only(key, k, s) == Only(key, k, t);
    }
  }

  /** Equal sorted lists: the originals agree key by key, and are permutations of each other. */
  lemma SameSortIff<T>(key: T -> Bytes, s: seq<T>, t: seq<T>)
    ensures Sort(key, s) == Sort(key, t) <==> SamePerKey(key, s, t)
    ensures Sort(key, s) == Sort(key, t) ==> multiset(s) == multiset(t)
  {
    SortSame(key, s);
    SortSame(key, t);
    if SamePerKey(key, s, t) {
      hide SamePerKey;
      SamePerKeySwaps(key, Sort(key, s), s);
      SamePerKeyJoins(key, s, Sort(key, s), t);
      SamePerKeySwaps(key, Sort(key, s), t);
      SamePerKeySwaps(key, Sort(key, t), t);
      SamePerKeyJoins(key, t, Sort(key, s), Sort(key, t));
      SortedDetermined(key, Sort(key, s), Sort(key, t));
    }
    if Sort(key, s) == Sort(key, t) {
      hide SamePerKey;
      SamePerKeyJoins(key, Sort(key, s), s, t);
    }
  }

  lemma SamePerKeySwaps<T>(key: T -> Bytes, s: seq<T>, t: seq<T>)
    requires SamePerKey(key, s, t)
    ensures SamePerKey(key, t, s)
  {
  }
}
