/**
 * The list operations the views build on, stated once: JavaScript's
 * Array.prototype.filter, find / findIndex and a stable sort by a numeric key
 * (Array.prototype.sort with a comparator of the form `key(a) - key(b)`).
 */
module Seqs {

  datatype Option<+T> = None | Some(value: T)

  /** The elements in the opposite order. */
  function Reverse<T>(s: seq<T>): (r: seq<T>)
    ensures |r| == |s|
    ensures forall k :: 0 <= k < |s| ==> r[k] == s[|s| - 1 - k]
    ensures multiset(r) == multiset(s)
  {
    if s == [] then []
    else
      assert s == [s[0]] + s[1..];
      Reverse(s[1..]) + [s[0]]
  }

  /** Array.prototype.filter: the elements that satisfy `p`, in their original order. */
  function Filter<T>(s: seq<T>, p: T -> bool): (r: seq<T>)
    ensures |r| <= |s|
    ensures forall k :: 0 <= k < |r| ==> r[k] in s && p(r[k])
    ensures forall k :: 0 <= k < |s| && p(s[k]) ==> s[k] in r
  {
    KeptSpec(s, p);
    Kept(s, p)
  }

  /** The recursion behind Filter, kept apart so that proofs about it do not carry Filter's contract. */
  function Kept<T>(s: seq<T>, p: T -> bool): seq<T>
  {
    if s == [] then []
    else if p(s[0]) then [s[0]] + Kept(s[1..], p)
    else Kept(s[1..], p)
  }

  lemma {:induction false} KeptSpec<T>(s: seq<T>, p: T -> bool)
    ensures |Kept(s, p)| <= |s|
    ensures forall k :: 0 <= k < |Kept(s, p)| ==> Kept(s, p)[k] in s && p(Kept(s, p)[k])
    ensures forall k :: 0 <= k < |s| && p(s[k]) ==> s[k] in Kept(s, p)
  {
    if s != [] {
      KeptSpec(s[1..], p);
      assert s == [s[0]] + s[1..];
    }
  }

  /** Each element kept by Filter keeps exactly its multiplicity; every other one is gone. */
  lemma FilterCount<T>(s: seq<T>, p: T -> bool, x: T)
    ensures multiset(Filter(s, p))[x] == if p(x) then multiset(s)[x] else 0
  {
    KeptCount(s, p, x);
  }

  lemma {:induction false} KeptCount<T>(s: seq<T>, p: T -> bool, x: T)
    ensures multiset(Kept(s, p))[x] == if p(x) then multiset(s)[x] else 0
  {
    if s != [] {
      KeptCount(s[1..], p, x);
      assert s == [s[0]] + s[1..];
    }
  }

  /** Filter distributes over concatenation: it never reorders across a split point. */
  lemma FilterAppend<T>(a: seq<T>, b: seq<T>, p: T -> bool)
    ensures Filter(a + b, p) == Filter(a, p) + Filter(b, p)
  {
    KeptAppend(a, b, p);
  }

  lemma {:induction false} KeptAppend<T>(a: seq<T>, b: seq<T>, p: T -> bool)
    ensures Kept(a + b, p) == Kept(a, p) + Kept(b, p)
  {
    if a == [] {
      assert a + b == b;
    } else {
      KeptAppend(a[1..], b, p);
      assert (a + b)[0] == a[0] && (a + b)[1..] == a[1..] + b;
    }
  }

  /** A one-element list keeps its element exactly when it satisfies `p`. */
  lemma FilterSingle<T>(x: T, p: T -> bool)
    ensures Filter([x], p) == if p(x) then [x] else []
  {
    FilterFirst([x], p);
    assert [x][1..] == [];
  }

  /** Filtering a non-empty list: the first element if it is kept, then the filtered rest. */
  lemma FilterFirst<T>(s: seq<T>, p: T -> bool)
    requires s != []
    ensures Filter(s, p) == if p(s[0]) then [s[0]] + Filter(s[1..], p) else Filter(s[1..], p)
  {
  }

  /** A filter whose predicate holds everywhere removes nothing. */
  lemma FilterKeepsAll<T>(s: seq<T>, p: T -> bool)
    requires forall k :: 0 <= k < |s| ==> p(s[k])
    ensures Filter(s, p) == s
  {
    KeptAll(s, p);
  }

  lemma {:induction false} KeptAll<T>(s: seq<T>, p: T -> bool)
    requires forall k :: 0 <= k < |s| ==> p(s[k])
    ensures Kept(s, p) == s
  {
    if s != [] {
      KeptAll(s[1..], p);
    }
  }

  /** Filter depends only on the predicate's values on the elements it sees. */
  lemma FilterCongruent<T>(s: seq<T>, p: T -> bool, q: T -> bool)
    requires forall k :: 0 <= k < |s| ==> p(s[k]) == q(s[k])
    ensures Filter(s, p) == Filter(s, q)
  {
    KeptCongruent(s, p, q);
  }

  lemma {:induction false} KeptCongruent<T>(s: seq<T>, p: T -> bool, q: T -> bool)
    requires forall k :: 0 <= k < |s| ==> p(s[k]) == q(s[k])
    ensures Kept(s, p) == Kept(s, q)
  {
    if s != [] {
      KeptCongruent(s[1..], p, q);
    }
  }

  /** Filtering twice is filtering once by both predicates. */
  lemma FilterFilter<T>(s: seq<T>, p: T -> bool, q: T -> bool, pq: T -> bool)
    requires forall x :: pq(x) == (p(x) && q(x))
    ensures Filter(Filter(s, p), q) == Filter(s, pq)
  {
    KeptKept(s, p, q, pq);
  }

  lemma {:induction false} KeptKept<T>(s: seq<T>, p: T -> bool, q: T -> bool, pq: T -> bool)
    requires forall x :: pq(x) == (p(x) && q(x))
    ensures Kept(Kept(s, p), q) == Kept(s, pq)
  {
    if s != [] {
      KeptKept(s[1..], p, q, pq);
      if p(s[0]) {
        assert ([s[0]] + Kept(s[1..], p))[1..] == Kept(s[1..], p);
      }
    }
  }

  /** A filter that no element satisfies leaves nothing. */
  lemma {:induction false} KeptNone<T>(s: seq<T>, p: T -> bool)
    requires forall k :: 0 <= k < |s| ==> !p(s[k])
    ensures Kept(s, p) == []
  {
    if s != [] {
      KeptNone(s[1..], p);
    }
  }

  /**
   * Two sequences of the same length that hold `x` and `y` at the same
   * positions hold them equally often.
   */
  lemma {:induction false} CountsCorrespond<A, B>(a: seq<A>, b: seq<B>, x: A, y: B)
    requires |a| == |b|
    requires forall k :: 0 <= k < |a| ==> (a[k] == x <==> b[k] == y)
    ensures multiset(a)[x] == multiset(b)[y]
  {
    if a != [] {
      var n := |a| - 1;
      CountsCorrespond(a[..n], b[..n], x, y);
      assert a == a[..n] + [a[n]];
      assert b == b[..n] + [b[n]];
    }
  }

  /** Array.prototype.map. */
  function Map<T, U>(s: seq<T>, f: T -> U): (r: seq<U>)
    ensures |r| == |s|
    ensures forall k :: 0 <= k < |s| ==> r[k] == f(s[k])
  {
    seq(|s|, k requires 0 <= k < |s| => f(s[k]))
  }

  lemma MapAppend<T, U>(a: seq<T>, b: seq<T>, f: T -> U)
    ensures Map(a + b, f) == Map(a, f) + Map(b, f)
  {
  }
  /** Each element looked up with `f`, the misses dropped, the hits in order. */
  function FilterMap<T, U>(s: seq<T>, f: T -> Option<U>): seq<U>
  {
    if s == [] then []
    else
      var rest := FilterMap(s[1..], f);
      match f(s[0])
      case Some(v) => [v] + rest
      case None => rest
  }

  /**
   * When every hit carries its own key, the keys of the hits are the elements
   * of `s` that hit, in order.
   */
  lemma {:induction false} FilterMapKeys<T, U>(s: seq<T>, f: T -> Option<U>, hit: T -> bool, key: U -> T)
    requires forall x :: hit(x) == f(x).Some?
    requires forall x :: f(x).Some? ==> key(f(x).value) == x
    ensures Map(FilterMap(s, f), key) == Kept(s, hit)
  {
    if s != [] {
      var rest := FilterMap(s[1..], f);
      FilterMapKeys(s[1..], f, hit, key);
      if f(s[0]).Some? {
        var v := f(s[0]).value;
        assert FilterMap(s, f) == [v] + rest;
        MapAppend([v], rest, key);
      }
    }
  }


  /**
   * Array.prototype.findIndex: the position of the first element satisfying `p`,
   * or -1 when there is none.
   */
  function FindIndex<T>(s: seq<T>, p: T -> bool): (r: int)
    ensures -1 <= r < |s|
    ensures r >= 0 ==> p(s[r]) && forall j :: 0 <= j < r ==> !p(s[j])
    ensures r == -1 <==> forall j :: 0 <= j < |s| ==> !p(s[j])
  {
    if s == [] then -1
    else if p(s[0]) then 0
    else
      var i := FindIndex(s[1..], p);
      if i == -1 then -1 else i + 1
  }

  /** Array.prototype.find: the first element satisfying `p`, or None for `undefined`. */
  function Find<T>(s: seq<T>, p: T -> bool): (r: Option<T>)
    ensures r.Some? ==> r.value in s && p(r.value)
    ensures r.Some? ==> exists i :: 0 <= i < |s| && s[i] == r.value && forall j :: 0 <= j < i ==> !p(s[j])
    ensures r.None? <==> forall j :: 0 <= j < |s| ==> !p(s[j])
  {
    var i := FindIndex(s, p);
    if i == -1 then None else Some(s[i])
  }

  /** The order Array.prototype.sort establishes with the comparator `key(a) - key(b)`. */
  predicate SortedBy<T>(s: seq<T>, key: T -> real)
  {
    forall i, j :: 0 <= i < j < |s| ==> key(s[i]) <= key(s[j])
  }

  /** Places `x` after every element whose key is not greater than its own. */
  function Insert<T>(x: T, s: seq<T>, key: T -> real): (r: seq<T>)
    ensures multiset(r) == multiset(s) + multiset{x}
    ensures |r| == |s| + 1
  {
    if s == [] || key(x) < key(s[0]) then [x] + s
    else
      assert s == [s[0]] + s[1..];
      [s[0]] + Insert(x, s[1..], key)
  }

  lemma {:induction false} InsertSorted<T>(x: T, s: seq<T>, key: T -> real)
    requires SortedBy(s, key)
    ensures SortedBy(Insert(x, s, key), key)
  {
    var r := Insert(x, s, key);
    if s == [] {
    } else if key(x) < key(s[0]) {
      forall i, j | 0 <= i < j < |r|
        ensures key(r[i]) <= key(r[j])
      {
        if i > 0 {
          assert r[i] == s[i - 1] && r[j] == s[j - 1];
        } else {
          assert r[j] == s[j - 1];
        }
      }
    } else {
      var rest := Insert(x, s[1..], key);
      assert r == [s[0]] + rest;
      InsertSorted(x, s[1..], key);
      forall j | 0 <= j < |rest|
        ensures key(s[0]) <= key(rest[j])
      {
        assert rest[j] in multiset(rest);
        if rest[j] != x {
          assert rest[j] in multiset(s[1..]);
          var m :| 0 <= m < |s[1..]| && s[1..][m] == rest[j];
          assert s[m + 1] == rest[j];
        }
      }
      forall i, j | 0 <= i < j < |r|
        ensures key(r[i]) <= key(r[j])
      {
        assert r[j] == rest[j - 1];
        if i > 0 {
          assert r[i] == rest[i - 1];
        }
      }
    }
  }

  /**
   * Stable sort by `key`, ascending: elements are inserted in input order, each
   * after the equal-keyed elements already placed.
   */
  function SortByKey<T>(s: seq<T>, key: T -> real): (r: seq<T>)
    ensures SortedBy(r, key)
    ensures multiset(r) == multiset(s)
    ensures |r| == |s|
  {
    if s == [] then []
    else
      assert s == s[..|s| - 1] + [s[|s| - 1]];
      InsertSorted(s[|s| - 1], SortByKey(s[..|s| - 1], key), key);
      Insert(s[|s| - 1], SortByKey(s[..|s| - 1], key), key)
  }

  /** The elements whose key is `v`. */
  function KeyIs<T>(key: T -> real, v: real): T -> bool
  {
    x => key(x) == v
  }

  /**
   * Inserting into a sorted list puts `x` after every element that shares its
   * key: among the elements with key `v`, `x` comes last.
   */
  lemma {:induction false} InsertStable<T>(x: T, s: seq<T>, key: T -> real, v: real)
    requires SortedBy(s, key)
    ensures Kept(Insert(x, s, key), KeyIs(key, v)) == Kept(s, KeyIs(key, v)) + (if key(x) == v then [x] else [])
  {
    var p := KeyIs(key, v);
    if s == [] {
      assert Insert(x, s, key) == [x];
      assert [x][1..] == [];
    } else if key(x) < key(s[0]) {
      var r := [x] + s;
      assert Insert(x, s, key) == r && r[0] == x && r[1..] == s;
      if key(x) == v {
        KeptNone(s, p);
      }
    } else {
      var rest := Insert(x, s[1..], key);
      var r := [s[0]] + rest;
      assert Insert(x, s, key) == r && r[0] == s[0] && r[1..] == rest;
      InsertStable(x, s[1..], key, v);
    }
  }

  /**
   * SortByKey is stable: the elements sharing any one key keep their input
   * order.
   */
  lemma {:induction false} SortByKeyStable<T>(s: seq<T>, key: T -> real, v: real)
    ensures Filter(SortByKey(s, key), KeyIs(key, v)) == Filter(s, KeyIs(key, v))
  {
    KeptSorted(s, key, v);
  }

  lemma {:induction false} KeptSorted<T>(s: seq<T>, key: T -> real, v: real)
    ensures Kept(SortByKey(s, key), KeyIs(key, v)) == Kept(s, KeyIs(key, v))
  {
    var p := KeyIs(key, v);
    if s != [] {
      var init, last := s[..|s| - 1], s[|s| - 1];
      var tail := if key(last) == v then [last] else [];
      calc {
        Kept(SortByKey(s, key), p);
        { SortByKeyLast(s, key); }
        Kept(Insert(last, SortByKey(init, key), key), p);
        { InsertStable(last, SortByKey(init, key), key, v); }
        Kept(SortByKey(init, key), p) + tail;
        { KeptSorted(init, key, v); }
        Kept(init, p) + tail;
        { KeptSingle(last, p); }
        Kept(init, p) + Kept([last], p);
        { KeptAppend(init, [last], p); }
        Kept(init + [last], p);
        { assert s == init + [last]; }
        Kept(s, p);
      }
    }
  }

  /** SortByKey inserts the last element into the sorted rest. */
  lemma SortByKeyLast<T>(s: seq<T>, key: T -> real)
    requires s != []
    ensures SortByKey(s, key) == Insert(s[|s| - 1], SortByKey(s[..|s| - 1], key), key)
  {
  }

  lemma KeptSingle<T>(x: T, p: T -> bool)
    ensures Kept([x], p) == if p(x) then [x] else []
  {
    assert [x][1..] == [];
  }

  /** Strictly ascending by `key`: no two positions share a key. */
  predicate StrictlySortedBy<T>(s: seq<T>, key: T -> real)
  {
    forall i, j :: 0 <= i < j < |s| ==> key(s[i]) < key(s[j])
  }

  /** Dropping the head removes one copy of it from the multiset. */
  lemma TailMultiset<T>(s: seq<T>)
    requires s != []
    ensures multiset(s[1..]) == multiset(s) - multiset{s[0]}
  {
    assert s == [s[0]] + s[1..];
  }

  /** A strictly sorted sequence and a sorted one with the same elements start alike. */
  lemma SortedHeadsAgree<T>(a: seq<T>, b: seq<T>, key: T -> real)
    requires a != [] && multiset(a) == multiset(b)
    requires StrictlySortedBy(a, key) && SortedBy(b, key)
    ensures b != [] && a[0] == b[0]
  {
    assert a[0] in multiset(b);
    var k :| 0 <= k < |b| && b[k] == a[0];
    assert b[0] in multiset(a);
    var m :| 0 <= m < |a| && a[m] == b[0];
  }

  /**
   * A strictly sorted sequence is the only ascending arrangement of its
   * elements: its first element is the unique least one, and so on.
   */
  lemma {:induction false} SortedUnique<T>(a: seq<T>, b: seq<T>, key: T -> real)
    requires multiset(a) == multiset(b)
    requires StrictlySortedBy(a, key) && SortedBy(b, key)
    ensures a == b
  {
    if a == [] {
      assert |b| == |multiset(b)| == 0;
    } else {
      SortedHeadsAgree(a, b, key);
      TailMultiset(a);
      TailMultiset(b);
      SortedUnique(a[1..], b[1..], key);
      assert a == [a[0]] + a[1..] && b == [b[0]] + b[1..];
    }
  }

  /** Reversing a sequence sorted by the negated key sorts it by the key. */
  lemma ReverseSorted<T>(s: seq<T>, key: T -> real, negated: T -> real)
    requires forall x :: negated(x) == -key(x)
    requires SortedBy(s, negated)
    ensures SortedBy(Reverse(s), key)
  {
    var r, n := Reverse(s), |s|;
    forall i, j | 0 <= i < j < n
      ensures key(r[i]) <= key(r[j])
    {
      assert r[i] == s[n - 1 - i] && r[j] == s[n - 1 - j];
      assert negated(s[n - 1 - j]) <= negated(s[n - 1 - i]);
    }
  }

  lemma ReverseReverse<T>(s: seq<T>)
    ensures Reverse(Reverse(s)) == s
  {
  }
}
