/** Python's sorted(): a stable sort, here on (segment, offset) keys. */
module Sorting {
  datatype Loc = Loc(seg: nat, off: nat)

  predicate LocLeq(a: Loc, b: Loc) {
    a.seg < b.seg || (a.seg == b.seg && a.off <= b.off)
  }

  function Insert<T>(x: T, ys: seq<T>, key: T -> Loc): seq<T> {
    if |ys| == 0 || LocLeq(key(x), key(ys[0])) then [x] + ys
    else [ys[0]] + Insert(x, ys[1..], key)
  }

  function Sort<T>(xs: seq<T>, key: T -> Loc): seq<T> {
    if |xs| == 0 then [] else Insert(xs[0], Sort(xs[1..], key), key)
  }

  predicate Ordered<T>(xs: seq<T>, key: T -> Loc) {
    forall i, j :: 0 <= i < j < |xs| ==> LocLeq(key(xs[i]), key(xs[j]))
  }

  lemma {:induction false} InsertContents<T>(x: T, ys: seq<T>, key: T -> Loc)
    ensures multiset(Insert(x, ys, key)) == multiset{x} + multiset(ys)
  {
    if !(|ys| == 0 || LocLeq(key(x), key(ys[0]))) {
      InsertContents(x, ys[1..], key);
      assert ys == [ys[0]] + ys[1..];
    }
  }

  lemma {:induction false} SortContents<T>(xs: seq<T>, key: T -> Loc)
    ensures multiset(Sort(xs, key)) == multiset(xs)
    ensures |Sort(xs, key)| == |xs|
    ensures forall x :: x in Sort(xs, key) <==> x in xs
  {
    if |xs| > 0 {
      SortContents(xs[1..], key);
      InsertContents(xs[0], Sort(xs[1..], key), key);
      assert xs == [xs[0]] + xs[1..];
    }
    assert multiset(Sort(xs, key)) == multiset(xs);
    assert |multiset(Sort(xs, key))| == |Sort(xs, key)|;
    forall x ensures x in Sort(xs, key) <==> x in xs {
      assert x in multiset(Sort(xs, key)) <==> x in multiset(xs);
    }
  }

  lemma {:induction false} InsertOrdered<T>(x: T, ys: seq<T>, key: T -> Loc)
    requires Ordered(ys, key)
    ensures Ordered(Insert(x, ys, key), key)
  {
    if !(|ys| == 0 || LocLeq(key(x), key(ys[0]))) {
      InsertOrdered(x, ys[1..], key);
      InsertContents(x, ys[1..], key);
      var r := Insert(x, ys[1..], key);
      forall i | 0 <= i < |r| ensures LocLeq(key(ys[0]), key(r[i])) {
        assert r[i] in multiset(r);
        if r[i] != x {
          assert r[i] in multiset(ys[1..]);
          var j :| 0 <= j < |ys[1..]| && ys[1..][j] == r[i];
          assert ys[j + 1] == r[i];
        }
      }
    }
  }

  lemma {:induction false} SortOrdered<T>(xs: seq<T>, key: T -> Loc)
    ensures Ordered(Sort(xs, key), key)
  {
    if |xs| > 0 {
      SortOrdered(xs[1..], key);
      InsertOrdered(xs[0], Sort(xs[1..], key), key);
    }
  }

  /** The elements with key k, in list order: what a stable sort keeps. */
  function WithKey<T>(xs: seq<T>, key: T -> Loc, k: Loc): seq<T> {
    if |xs| == 0 then []
    else (if key(xs[0]) == k then [xs[0]] else []) + WithKey(xs[1..], key, k)
  }

  lemma {:induction false} InsertStable<T>(x: T, ys: seq<T>, key: T -> Loc, k: Loc)
    ensures WithKey(Insert(x, ys, key), key, k) == WithKey([x] + ys, key, k)
  {
    assert ([x] + ys)[1..] == ys;
    if !(|ys| == 0 || LocLeq(key(x), key(ys[0]))) {
      InsertStable(x, ys[1..], key, k);
      assert ([x] + ys[1..])[1..] == ys[1..];
      assert Insert(x, ys, key)[1..] == Insert(x, ys[1..], key);
    }
  }

  lemma {:induction false} SortStable<T>(xs: seq<T>, key: T -> Loc, k: Loc)
    ensures WithKey(Sort(xs, key), key, k) == WithKey(xs, key, k)
  {
    if |xs| > 0 {
      SortStable(xs[1..], key, k);
      InsertStable(xs[0], Sort(xs[1..], key), key, k);
      assert ([xs[0]] + Sort(xs[1..], key))[1..] == Sort(xs[1..], key);
    }
  }

  predicate NoRepeats<T(==)>(xs: seq<T>) {
    forall i, j :: 0 <= i < j < |xs| ==> xs[i] != xs[j]
  }

  lemma {:induction false} NoRepeatsIsCount<T>(xs: seq<T>)
    ensures NoRepeats(xs) <==> forall x :: multiset(xs)[x] <= 1
  {
    if |xs| > 0 {
      var front, last := xs[..|xs| - 1], xs[|xs| - 1];
      assert xs == front + [last];
      NoRepeatsIsCount(front);
      if NoRepeats(xs) {
        assert last !in front;
      } else if forall x :: multiset(xs)[x] <= 1 {
        assert multiset(xs)[last] == multiset(front)[last] + 1;
        assert last !in multiset(front);
        forall x ensures multiset(front)[x] <= 1 {
          assert multiset(xs)[x] >= multiset(front)[x];
        }
        assert false;
      }
    }
  }

  lemma {:induction false} SortNoRepeats<T>(xs: seq<T>, key: T -> Loc)
    requires NoRepeats(xs)
    ensures NoRepeats(Sort(xs, key))
  {
    SortContents(xs, key);
    NoRepeatsIsCount(xs);
    NoRepeatsIsCount(Sort(xs, key));
  }

  predicate KeyDetermines<T(==)>(xs: seq<T>, key: T -> Loc) {
    forall i, j :: 0 <= i < |xs| && 0 <= j < |xs| && key(xs[i]) == key(xs[j]) ==> xs[i] == xs[j]
  }

  lemma {:induction false} FirstElement<T>(xs: seq<T>, ys: seq<T>, key: T -> Loc)
    requires Ordered(xs, key) && Ordered(ys, key) && multiset(xs) == multiset(ys)
    requires KeyDetermines(xs, key) && |xs| > 0
    ensures |ys| > 0 && xs[0] == ys[0]
  {
    assert xs[0] in multiset(ys);
    var i :| 0 <= i < |ys| && ys[i] == xs[0];
    assert ys[0] in multiset(xs);
    var j :| 0 <= j < |xs| && xs[j] == ys[0];
    assert LocLeq(key(xs[0]), key(xs[j])) && LocLeq(key(ys[0]), key(ys[i]));
  }

  lemma {:induction false} RestContents<T>(xs: seq<T>, ys: seq<T>)
    requires |xs| > 0 && |ys| > 0 && xs[0] == ys[0] && multiset(xs) == multiset(ys)
    ensures multiset(xs[1..]) == multiset(ys[1..])
  {
    assert xs == [xs[0]] + xs[1..] && ys == [ys[0]] + ys[1..];
    assert multiset(xs[1..]) == multiset(xs) - multiset{xs[0]};
    assert multiset(ys[1..]) == multiset(ys) - multiset{ys[0]};
  }

  lemma {:induction false} RestKeyDetermines<T>(xs: seq<T>, key: T -> Loc)
    requires |xs| > 0 && KeyDetermines(xs, key)
    ensures KeyDetermines(xs[1..], key)
  {
    var rest := xs[1..];
    forall i, j | 0 <= i < |rest| && 0 <= j < |rest| && key(rest[i]) == key(rest[j])
      ensures rest[i] == rest[j]
    {
      assert rest[i] == xs[i + 1] && rest[j] == xs[j + 1];
    }
  }

  /** Without equal keys, the sorted list depends only on the contents. */
  lemma {:induction false} OrderedUnique<T>(xs: seq<T>, ys: seq<T>, key: T -> Loc)
    requires Ordered(xs, key) && Ordered(ys, key) && multiset(xs) == multiset(ys)
    requires KeyDetermines(xs, key)
    ensures xs == ys
  {
    if |xs| == 0 {
      assert |multiset(ys)| == 0;
    } else {
      FirstElement(xs, ys, key);
      RestContents(xs, ys);
      RestKeyDetermines(xs, key);
      OrderedUnique(xs[1..], ys[1..], key);
      assert xs == [xs[0]] + xs[1..] && ys == [ys[0]] + ys[1..];
    }
  }

  lemma {:induction false} SortKeyDetermines<T>(xs: seq<T>, key: T -> Loc)
    requires KeyDetermines(xs, key)
    ensures KeyDetermines(Sort(xs, key), key)
  {
    SortContents(xs, key);
    var s := Sort(xs, key);
    forall i, j | 0 <= i < |s| && 0 <= j < |s| && key(s[i]) == key(s[j]) ensures s[i] == s[j] {
      assert s[i] in multiset(s) && s[j] in multiset(s);
      assert s[i] in multiset(xs) && s[j] in multiset(xs);
      var k :| 0 <= k < |xs| && xs[k] == s[i];
      var l :| 0 <= l < |xs| && xs[l] == s[j];
    }
  }

  lemma {:induction false} SortOfPermutation<T>(xs: seq<T>, ys: seq<T>, key: T -> Loc)
    requires multiset(xs) == multiset(ys) && KeyDetermines(xs, key)
    ensures Sort(xs, key) == Sort(ys, key)
  {
    SortContents(xs, key);
    SortContents(ys, key);
    SortOrdered(xs, key);
    SortOrdered(ys, key);
    SortKeyDetermines(xs, key);
    OrderedUnique(Sort(xs, key), Sort(ys, key), key);
  }
}
