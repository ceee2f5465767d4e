// Python's `sorted(xs, key=...)`, with the keys the repository uses: two
// integers and a string, compared lexicographically. `Sort` is stable, as
// Python's sort is. The operations on lists it is used with are here too.
module Ordering {

  datatype Key = Key(major: int, minor: int, tie: string)

  predicate StringLeq(a: string, b: string) {
    a == [] || (b != [] && (a[0] < b[0] || (a[0] == b[0] && StringLeq(a[1..], b[1..]))))
  }

  predicate KeyLeq(a: Key, b: Key) {
    || a.major < b.major
    || (a.major == b.major && (a.minor < b.minor || (a.minor == b.minor && StringLeq(a.tie, b.tie))))
  }

  function Insert<T>(x: T, xs: seq<T>, key: T -> Key): seq<T> {
    if xs == [] then [x]
    else if KeyLeq(key(x), key(xs[0])) then [x] + xs
    else [xs[0]] + Insert(x, xs[1..], key)
  }

  function Sort<T>(xs: seq<T>, key: T -> Key): seq<T> {
    if xs == [] then [] else Insert(xs[0], Sort(xs[1..], key), key)
  }

  ghost predicate Sorted<T>(xs: seq<T>, key: T -> Key) {
    forall i, j :: 0 <= i < j < |xs| ==> KeyLeq(key(xs[i]), key(xs[j]))
  }

  function Map<A, B>(xs: seq<A>, f: A -> B): (ys: seq<B>)
    ensures |ys| == |xs| && forall i :: 0 <= i < |xs| ==> ys[i] == f(xs[i])
  {
    seq(|xs|, i requires 0 <= i < |xs| => f(xs[i]))
  }

  function Swapped<T>(pairs: seq<(T, T)>): (r: seq<(T, T)>)
    ensures |r| == |pairs| && forall k :: 0 <= k < |pairs| ==> r[k] == (pairs[k].1, pairs[k].0)
  {
    seq(|pairs|, k requires 0 <= k < |pairs| => (pairs[k].1, pairs[k].0))
  }

  function Filter<T>(xs: seq<T>, p: T -> bool): (ys: seq<T>)
    ensures forall y :: y in ys ==> y in xs && p(y)
    ensures forall y :: y in xs && p(y) ==> y in ys
  {
    if xs == [] then []
    else if p(xs[0]) then [xs[0]] + Filter(xs[1..], p)
    else Filter(xs[1..], p)
  }

  // ----- the order on keys is total -----

  lemma {:induction false} StringOrder(a: string, b: string, c: string)
    ensures StringLeq(a, b) || StringLeq(b, a)
    ensures StringLeq(a, b) && StringLeq(b, a) ==> a == b
    ensures StringLeq(a, b) && StringLeq(b, c) ==> StringLeq(a, c)
  {
    if a != [] && b != [] {
      StringOrder(a[1..], b[1..], if c == [] then [] else c[1..]);
    }
  }

  lemma KeyOrder(a: Key, b: Key, c: Key)
    ensures KeyLeq(a, b) || KeyLeq(b, a)
    ensures KeyLeq(a, b) && KeyLeq(b, a) ==> a == b
    ensures KeyLeq(a, b) && KeyLeq(b, c) ==> KeyLeq(a, c)
  {
    StringOrder(a.tie, b.tie, c.tie);
  }

  // ----- sorting is a permutation, and puts the keys in order -----

  lemma {:induction false} InsertKeepsElements<T>(x: T, xs: seq<T>, key: T -> Key)
    ensures multiset(Insert(x, xs, key)) == multiset([x]) + multiset(xs)
    ensures |Insert(x, xs, key)| == |xs| + 1
  {
    if xs != [] {
      assert xs == [xs[0]] + xs[1..];
      if !KeyLeq(key(x), key(xs[0])) {
        InsertKeepsElements(x, xs[1..], key);
      }
    }
  }

  lemma {:induction false} SortKeepsElements<T>(xs: seq<T>, key: T -> Key)
    ensures multiset(Sort(xs, key)) == multiset(xs)
    ensures |Sort(xs, key)| == |xs|
    ensures forall x :: x in Sort(xs, key) <==> x in xs
  {
    if xs != [] {
      SortKeepsElements(xs[1..], key);
      InsertKeepsElements(xs[0], Sort(xs[1..], key), key);
      assert xs == [xs[0]] + xs[1..];
    }
    assert forall x :: x in Sort(xs, key) <==> x in multiset(Sort(xs, key));
    assert forall x :: x in xs <==> x in multiset(xs);
  }

  lemma {:induction false} InsertKeepsOrder<T>(x: T, xs: seq<T>, key: T -> Key)
    requires Sorted(xs, key)
    ensures Sorted(Insert(x, xs, key), key)
  {
    if xs != [] {
      KeyOrder(key(x), key(xs[0]), key(x));
      if KeyLeq(key(x), key(xs[0])) {
        forall j | 0 <= j < |xs| ensures KeyLeq(key(x), key(xs[j])) {
          KeyOrder(key(x), key(xs[0]), key(xs[j]));
        }
      } else {
        InsertKeepsOrder(x, xs[1..], key);
        InsertKeepsElements(x, xs[1..], key);
        var ys := Insert(x, xs[1..], key);
        forall y | y in ys ensures KeyLeq(key(xs[0]), key(y)) {
          assert y in multiset(ys);
        }
      }
    }
  }

  lemma {:induction false} SortIsSorted<T>(xs: seq<T>, key: T -> Key)
    ensures Sorted(Sort(xs, key), key)
  {
    if xs != [] {
      SortIsSorted(xs[1..], key);
      InsertKeepsOrder(xs[0], Sort(xs[1..], key), key);
    }
  }

  lemma HeadOfSort<T>(xs: seq<T>, key: T -> Key)
    requires Sort(xs, key) != []
    ensures Sort(xs, key)[0] in xs
  {
    SortKeepsElements(xs, key);
    assert Sort(xs, key)[0] in Sort(xs, key);
  }

  // An already sorted list is left as it is, and a sorted list followed by
  // larger elements only has the larger elements sorted.
  lemma {:induction false} SortAppend<T>(a: seq<T>, b: seq<T>, key: T -> Key)
    requires Sorted(a, key)
    requires forall x, y :: x in a && y in b ==> KeyLeq(key(x), key(y))
    ensures Sort(a + b, key) == a + Sort(b, key)
  {
    hide KeyLeq;
    if a == [] {
      assert a + b == b;
    } else {
      var x, tail := a[0], a[1..];
      SortAppend(tail, b, key);
      SortCons(x, tail + b, key);
      hide Sort, Insert;
      assert a == [x] + tail;
      Associate([x], tail, b);
      Associate([x], tail, Sort(b, key));
      var rest := tail + Sort(b, key);
      if tail != [] { assert rest[0] == a[1] && KeyLeq(key(a[0]), key(a[1])); }
      if tail == [] && rest != [] {
        assert rest == Sort(b, key);
        HeadOfSort(b, key);
        assert a[0] in a;
      }
      InsertFront(x, rest, key);
    }
  }

  lemma InsertFront<T>(x: T, xs: seq<T>, key: T -> Key)
    requires xs != [] ==> KeyLeq(key(x), key(xs[0]))
    ensures Insert(x, xs, key) == [x] + xs
  {
  }

  lemma SortCons<T>(x: T, xs: seq<T>, key: T -> Key)
    ensures Sort([x] + xs, key) == Insert(x, Sort(xs, key), key)
  {
    assert ([x] + xs)[1..] == xs;
  }

  lemma SortedIsFixed<T>(a: seq<T>, key: T -> Key)
    requires Sorted(a, key)
    ensures Sort(a, key) == a
  {
    SortAppend(a, [], key);
    assert a + [] == a;
  }

  // Two sorted lists with the same keys, as multisets, have the same keys in
  // the same positions: sorting forgets the order of its input.
  lemma {:induction false} SortedKeysAreCanonical(a: seq<Key>, b: seq<Key>)
    requires Sorted(a, k => k) && Sorted(b, k => k)
    requires multiset(a) == multiset(b)
    ensures a == b
  {
    if a == [] {
      assert |multiset(b)| == 0;
    } else {
      var i := RemoveFirst(a, b);
      var j := RemoveFirst(b, a);
      HeadIsLeast(a, j);
      HeadIsLeast(b, i);
      KeyOrder(a[0], b[0], a[0]);
      TailsPermute(a, b);
      SortedKeysAreCanonical(a[1..], b[1..]);
    }
  }

  lemma HeadIsLeast(a: seq<Key>, i: nat)
    requires Sorted(a, k => k) && i < |a|
    ensures KeyLeq(a[0], a[i])
  {
    KeyOrder(a[0], a[0], a[0]);
  }

  lemma TailsPermute<T>(a: seq<T>, b: seq<T>)
    requires a != [] && b != [] && a[0] == b[0] && multiset(a) == multiset(b)
    ensures multiset(a[1..]) == multiset(b[1..])
  {
    assert a == [a[0]] + a[1..] && b == [b[0]] + b[1..];
    assert multiset(a[1..]) == multiset(a) - multiset{a[0]};
  }

  // Taking one occurrence out of the middle of a list.
  lemma RemoveAt<T>(xs: seq<T>, i: nat)
    requires i < |xs|
    ensures xs == xs[..i] + [xs[i]] + xs[i + 1..]
    ensures multiset(xs) == multiset(xs[..i] + xs[i + 1..]) + multiset{xs[i]}
  {
    assert xs == xs[..i] + [xs[i]] + xs[i + 1..];
  }

  lemma RemoveFirst<T>(xs: seq<T>, ys: seq<T>) returns (i: nat)
    requires xs != [] && multiset(xs) == multiset(ys)
    ensures i < |ys| && ys[i] == xs[0]
    ensures multiset(xs[1..]) == multiset(ys[..i] + ys[i + 1..])
  {
    assert xs[0] in multiset(ys);
    i :| 0 <= i < |ys| && ys[i] == xs[0];
    RemoveAt(ys, i);
    assert xs == [xs[0]] + xs[1..];
    assert multiset(xs[1..]) == multiset(xs) - multiset{xs[0]};
  }

  // ----- filtering -----

  lemma Associate<T>(a: seq<T>, b: seq<T>, c: seq<T>)
    ensures (a + b) + c == a + (b + c)
  {
  }

  lemma FilterCons<T>(x: T, xs: seq<T>, p: T -> bool)
    ensures Filter([x] + xs, p) == (if p(x) then [x] else []) + Filter(xs, p)
  {
    assert ([x] + xs)[1..] == xs;
    assert [] + Filter(xs, p) == Filter(xs, p);
  }

  lemma {:induction false} FilterAppend<T>(a: seq<T>, b: seq<T>, p: T -> bool)
    ensures Filter(a + b, p) == Filter(a, p) + Filter(b, p)
  {
    if a == [] {
      assert a + b == b;
    } else {
      var x, rest := a[0], a[1..];
      FilterAppend(rest, b, p);
      FilterCons(x, rest, p);
      FilterCons(x, rest + b, p);
      hide Filter;
      assert a == [x] + rest;
      Associate([x], rest, b);
      Associate(if p(x) then [x] else [], Filter(rest, p), Filter(b, p));
    }
  }

  lemma {:induction false} FilterAll<T>(a: seq<T>, p: T -> bool)
    requires forall x :: x in a ==> p(x)
    ensures Filter(a, p) == a
  {
    if a != [] { FilterAll(a[1..], p); }
  }

  lemma {:induction false} FilterNone<T>(a: seq<T>, p: T -> bool)
    requires forall x :: x in a ==> !p(x)
    ensures Filter(a, p) == []
  {
    if a != [] { FilterNone(a[1..], p); }
  }

  lemma {:induction false} FilterSorted<T>(a: seq<T>, key: T -> Key, p: T -> bool)
    requires Sorted(a, key)
    ensures Sorted(Filter(a, p), key)
  {
    if a != [] {
      FilterSorted(a[1..], key, p);
      forall y | y in Filter(a[1..], p) ensures KeyLeq(key(a[0]), key(y)) {
        var j :| 0 <= j < |a[1..]| && a[1..][j] == y;
        assert KeyLeq(key(a[0]), key(a[j + 1]));
      }
    }
  }

  lemma {:induction false} SameFilter<T>(a: seq<T>, p: T -> bool, q: T -> bool)
    requires forall x :: x in a ==> p(x) == q(x)
    ensures Filter(a, p) == Filter(a, q)
  {
    if a != [] { SameFilter(a[1..], p, q); }
  }

  // ----- picking positions out of a list -----

  // The positions below n that satisfy p: all of them, each once, in order.
  ghost predicate Lists(ks: seq<nat>, n: nat, p: nat -> bool) {
    && (forall i :: 0 <= i < |ks| ==> ks[i] < n && p(ks[i]))
    && (forall i, j :: 0 <= i < j < |ks| ==> ks[i] < ks[j])
    && (forall k: nat :: k < n && p(k) ==> k in ks)
  }

  lemma ListsSnoc(ks: seq<nat>, n: nat, p: nat -> bool) returns (ls: seq<nat>)
    requires Lists(ks, n, p)
    ensures ls == (if p(n) then ks + [n] else ks) && Lists(ls, n + 1, p)
  {
    ls := if p(n) then ks + [n] else ks;
  }

  lemma ListsSame(ks: seq<nat>, n: nat, p: nat -> bool, q: nat -> bool)
    requires Lists(ks, n, p) && forall k: nat :: k < n ==> p(k) == q(k)
    ensures Lists(ks, n, q)
  {
  }

  // A position that does not satisfy p may be inside the bound or not.
  lemma ListsBound(ks: seq<nat>, n: nat, p: nat -> bool)
    requires !p(n)
    ensures Lists(ks, n, p) <==> Lists(ks, n + 1, p)
  {
  }

  // So there are as many as there are such positions.
  lemma {:induction false} ListsCount(ks: seq<nat>, n: nat, p: nat -> bool)
    requires Lists(ks, n, p)
    ensures |ks| == |set k: nat | k < n && p(k)|
  {
    var s := set k: nat | k < n && p(k);
    assert s == Members(ks);
    MembersCount(ks);
  }

  function Members(ks: seq<nat>): set<nat> { set k | k in ks }

  lemma {:induction false} MembersCount(ks: seq<nat>)
    requires forall i, j :: 0 <= i < j < |ks| ==> ks[i] < ks[j]
    ensures |Members(ks)| == |ks|
  {
    if ks != [] {
      var before, last := ks[..|ks| - 1], ks[|ks| - 1];
      MembersCount(before);
      assert ks == before + [last];
      assert Members(ks) == Members(before) + {last};
      assert last !in Members(before);
    }
  }

  // ys are the elements of xs at the positions ks.
  ghost predicate Picks<T>(ys: seq<T>, xs: seq<T>, ks: seq<nat>) {
    |ys| == |ks| && forall m :: 0 <= m < |ks| ==> ks[m] < |xs| && ys[m] == xs[ks[m]]
  }

  lemma PicksSnoc<T>(ys: seq<T>, xs: seq<T>, ks: seq<nat>, x: T)
    requires Picks(ys, xs, ks)
    ensures Picks(ys, xs + [x], ks) && Picks(ys + [x], xs + [x], ks + [|xs|])
  {
  }

  // Where in the list p holds.
  function Where<T>(xs: seq<T>, p: T -> bool): nat -> bool { (k: nat) => k < |xs| && p(xs[k]) }

  lemma FilterSnoc<T>(xs: seq<T>, x: T, p: T -> bool)
    ensures Filter(xs + [x], p) == if p(x) then Filter(xs, p) + [x] else Filter(xs, p)
  {
    FilterAppend(xs, [x], p);
    assert [x][1..] == [];
    assert Filter(xs, p) + [] == Filter(xs, p);
  }

  lemma WhereSnoc<T>(xs: seq<T>, x: T, p: T -> bool, ks: seq<nat>)
    requires Lists(ks, |xs|, Where(xs, p))
    ensures Lists(ks, |xs|, Where(xs + [x], p)) && (Where(xs + [x], p)(|xs|) <==> p(x))
  {
    ListsSame(ks, |xs|, Where(xs, p), Where(xs + [x], p));
  }

  // Filtering keeps exactly the elements that satisfy p, in order.
  lemma {:induction false} FilterLists<T>(xs: seq<T>, p: T -> bool) returns (ks: seq<nat>)
    ensures Lists(ks, |xs|, Where(xs, p)) && Picks(Filter(xs, p), xs, ks)
  {
    if xs == [] {
      ks := [];
    } else {
      hide Lists, Filter, Picks, Where;
      var before, last := xs[..|xs| - 1], xs[|xs| - 1];
      ks := FilterLists(before, p);
      FilterSnoc(before, last, p);
      PicksSnoc(Filter(before, p), before, ks, last);
      WhereSnoc(before, last, p, ks);
      assert xs == before + [last];
      ks := ListsSnoc(ks, |before|, Where(xs, p));
    }
  }

  // ----- sorting commutes with filtering and with key-preserving maps -----

  lemma {:induction false} FilterInsert<T>(x: T, xs: seq<T>, key: T -> Key, p: T -> bool)
    requires Sorted(xs, key)
    ensures Filter(Insert(x, xs, key), p) ==
            if p(x) then Insert(x, Filter(xs, p), key) else Filter(xs, p)
  {
    if xs != [] {
      if KeyLeq(key(x), key(xs[0])) {
        assert ([x] + xs)[1..] == xs;
        var ys := Filter(xs, p);
        if ys != [] {
          assert ys[0] in ys;
          assert ys[0] in xs;
          var i :| 0 <= i < |xs| && xs[i] == ys[0];
          KeyOrder(key(x), key(xs[0]), key(xs[i]));
        }
      } else {
        FilterInsert(x, xs[1..], key, p);
        var zs := Insert(x, xs[1..], key);
        assert ([xs[0]] + zs)[0] == xs[0] && ([xs[0]] + zs)[1..] == zs;
        if p(xs[0]) {
          var fs := Filter(xs[1..], p);
          assert ([xs[0]] + fs)[1..] == fs;
        }
      }
    }
  }

  lemma {:induction false} FilterSort<T>(xs: seq<T>, key: T -> Key, p: T -> bool)
    ensures Filter(Sort(xs, key), p) == Sort(Filter(xs, p), key)
  {
    if xs != [] {
      FilterSort(xs[1..], key, p);
      SortIsSorted(xs[1..], key);
      FilterInsert(xs[0], Sort(xs[1..], key), key, p);
      if p(xs[0]) {
        assert ([xs[0]] + Filter(xs[1..], p))[1..] == Filter(xs[1..], p);
      }
    }
  }

  function HasKey<T>(key: T -> Key, k: Key): T -> bool { (x: T) => key(x) == k }

  // Elements with the same key keep their order.
  lemma SortIsStable<T>(xs: seq<T>, key: T -> Key, k: Key)
    ensures Filter(Sort(xs, key), HasKey(key, k)) == Filter(xs, HasKey(key, k))
  {
    FilterSort(xs, key, HasKey(key, k));
    KeyOrder(k, k, k);
    var same := Filter(xs, HasKey(key, k));
    forall i, j | 0 <= i < j < |same| ensures KeyLeq(key(same[i]), key(same[j])) {
      assert same[i] in same && same[j] in same;
    }
    SortedIsFixed(same, key);
  }

  lemma {:induction false} MapInsert<A, B>(x: A, xs: seq<A>, f: A -> B, ka: A -> Key, kb: B -> Key)
    requires forall a :: ka(a) == kb(f(a))
    ensures Map(Insert(x, xs, ka), f) == Insert(f(x), Map(xs, f), kb)
  {
    if xs != [] {
      assert Map(xs, f)[1..] == Map(xs[1..], f);
      if KeyLeq(ka(x), ka(xs[0])) {
        assert ([x] + xs)[1..] == xs;
      } else {
        MapInsert(x, xs[1..], f, ka, kb);
        assert ([xs[0]] + Insert(x, xs[1..], ka))[1..] == Insert(x, xs[1..], ka);
      }
    } else {
      assert Map([x], f) == [f(x)];
    }
  }

  lemma {:induction false} MapSort<A, B>(xs: seq<A>, f: A -> B, ka: A -> Key, kb: B -> Key)
    requires forall a :: ka(a) == kb(f(a))
    ensures Map(Sort(xs, ka), f) == Sort(Map(xs, f), kb)
  {
    if xs != [] {
      MapSort(xs[1..], f, ka, kb);
      MapInsert(xs[0], Sort(xs[1..], ka), f, ka, kb);
      assert Map(xs, f)[1..] == Map(xs[1..], f);
    }
  }

  lemma RemoveMapped<A, B>(xs: seq<A>, i: nat, rest: seq<A>, f: A -> B)
    requires i < |xs| && rest == xs[..i] + xs[i + 1..]
    ensures multiset(Map(xs, f)) == multiset(Map(rest, f)) + multiset{f(xs[i])}
  {
    RemoveAt(Map(xs, f), i);
    assert Map(rest, f) == Map(xs, f)[..i] + Map(xs, f)[i + 1..];
  }

  lemma {:induction false} MapPermutes<A, B>(xs: seq<A>, ys: seq<A>, f: A -> B)
    requires multiset(xs) == multiset(ys)
    ensures multiset(Map(xs, f)) == multiset(Map(ys, f))
  {
    if xs == [] {
      assert |multiset(ys)| == 0;
    } else {
      var i := RemoveFirst(xs, ys);
      var rest := ys[..i] + ys[i + 1..];
      RemoveMapped(ys, i, rest, f);
      RemoveMapped(xs, 0, xs[1..], f);
      MapPermutes(xs[1..], rest, f);
    }
  }

  // Two lists with the same elements are rearrangements of each other.
  lemma {:induction false} Rearrangement<T>(xs: seq<T>, ys: seq<T>) returns (at: seq<nat>)
    requires multiset(xs) == multiset(ys)
    ensures |at| == |xs| == |ys| && forall k :: 0 <= k < |xs| ==> at[k] < |ys| && xs[k] == ys[at[k]]
    ensures forall i, j :: 0 <= i < j < |at| ==> at[i] != at[j]
  {
    if xs == [] {
      assert |multiset(ys)| == 0;
      at := [];
    } else {
      var i := RemoveFirst(xs, ys);
      var rest := ys[..i] + ys[i + 1..];
      var tail := Rearrangement(xs[1..], rest);
      var moved := seq(|tail|, k requires 0 <= k < |tail| => if tail[k] < i then tail[k] else tail[k] + 1);
      at := [i] + moved;
      assert |xs| == |multiset(xs)| && |ys| == |multiset(ys)|;
      forall k | 0 <= k < |xs| ensures at[k] < |ys| && xs[k] == ys[at[k]] {
        if k > 0 { assert xs[k] == xs[1..][k - 1] == rest[tail[k - 1]]; }
      }
    }
  }

  // A permuted input sorts to the same sequence of keys.
  lemma SortForgetsOrder<T>(xs: seq<T>, ys: seq<T>, key: T -> Key)
    requires multiset(xs) == multiset(ys)
    ensures Map(Sort(xs, key), key) == Map(Sort(ys, key), key)
  {
    SortKeepsElements(xs, key);
    SortKeepsElements(ys, key);
    SortIsSorted(xs, key);
    SortIsSorted(ys, key);
    MapPermutes(Sort(xs, key), Sort(ys, key), key);
    SortedKeysAreCanonical(Map(Sort(xs, key), key), Map(Sort(ys, key), key));
  }

  // ----- a symmetric pairwise property does not depend on the order -----

  ghost predicate Pairwise<T>(xs: seq<T>, r: (T, T) -> bool) {
    forall i, j :: 0 <= i < j < |xs| ==> r(xs[i], xs[j])
  }

  ghost predicate RelatedToAll<T>(x: T, xs: seq<T>, r: (T, T) -> bool) {
    forall i :: 0 <= i < |xs| ==> r(x, xs[i])
  }

  lemma PairwiseCons<T>(x: T, xs: seq<T>, r: (T, T) -> bool)
    ensures Pairwise([x] + xs, r) <==> Pairwise(xs, r) && RelatedToAll(x, xs, r)
  {
    var ys := [x] + xs;
    assert forall i :: 0 <= i < |xs| ==> xs[i] == ys[i + 1];
    if Pairwise(ys, r) {
      forall i, j | 0 <= i < j < |xs| ensures r(xs[i], xs[j]) {
        assert r(ys[i + 1], ys[j + 1]);
      }
      forall j | 0 <= j < |xs| ensures r(x, xs[j]) {
        assert r(ys[0], ys[j + 1]);
      }
    }
    if Pairwise(xs, r) && RelatedToAll(x, xs, r) {
      forall i, j | 0 <= i < j < |ys| ensures r(ys[i], ys[j]) {
        assert ys[j] == xs[j - 1] && (i > 0 ==> ys[i] == xs[i - 1]);
      }
    }
  }

  lemma {:induction false} RelatedInsert<T>(z: T, x: T, xs: seq<T>, key: T -> Key, r: (T, T) -> bool)
    ensures RelatedToAll(z, Insert(x, xs, key), r) <==> r(z, x) && RelatedToAll(z, xs, r)
  {
    if xs != [] {
      if KeyLeq(key(x), key(xs[0])) {
        RelatedCons(z, x, xs, r);
      } else {
        RelatedInsert(z, x, xs[1..], key, r);
        RelatedCons(z, xs[0], Insert(x, xs[1..], key), r);
        RelatedCons(z, xs[0], xs[1..], r);
        assert xs == [xs[0]] + xs[1..];
      }
    } else {
      RelatedCons(z, x, xs, r);
      assert [x] + xs == [x];
    }
  }

  lemma RelatedCons<T>(z: T, x: T, xs: seq<T>, r: (T, T) -> bool)
    ensures RelatedToAll(z, [x] + xs, r) <==> r(z, x) && RelatedToAll(z, xs, r)
  {
    var ys := [x] + xs;
    assert ys[0] == x && forall i :: 0 <= i < |xs| ==> xs[i] == ys[i + 1];
  }

  lemma {:induction false} RelatedSort<T>(z: T, xs: seq<T>, key: T -> Key, r: (T, T) -> bool)
    ensures RelatedToAll(z, Sort(xs, key), r) <==> RelatedToAll(z, xs, r)
  {
    if xs != [] {
      RelatedSort(z, xs[1..], key, r);
      RelatedInsert(z, xs[0], Sort(xs[1..], key), key, r);
      RelatedCons(z, xs[0], xs[1..], r);
      assert xs == [xs[0]] + xs[1..];
    }
  }

  lemma {:induction false} PairwiseInsert<T(!new)>(x: T, xs: seq<T>, key: T -> Key, r: (T, T) -> bool)
    requires forall a, b :: r(a, b) == r(b, a)
    ensures Pairwise(Insert(x, xs, key), r) <==> Pairwise(xs, r) && RelatedToAll(x, xs, r)
  {
    if xs == [] || KeyLeq(key(x), key(xs[0])) {
      PairwiseCons(x, xs, r);
      assert xs == [] ==> [x] + xs == [x];
    } else {
      PairwiseInsert(x, xs[1..], key, r);
      PairwiseCons(xs[0], Insert(x, xs[1..], key), r);
      RelatedInsert(xs[0], x, xs[1..], key, r);
      PairwiseCons(xs[0], xs[1..], r);
      RelatedCons(x, xs[0], xs[1..], r);
      assert xs == [xs[0]] + xs[1..];
    }
  }

  lemma {:induction false} PairwiseSort<T(!new)>(xs: seq<T>, key: T -> Key, r: (T, T) -> bool)
    requires forall a, b :: r(a, b) == r(b, a)
    ensures Pairwise(Sort(xs, key), r) <==> Pairwise(xs, r)
  {
    if xs != [] {
      PairwiseSort(xs[1..], key, r);
      PairwiseInsert(xs[0], Sort(xs[1..], key), key, r);
      RelatedSort(xs[0], xs[1..], key, r);
      PairwiseCons(xs[0], xs[1..], r);
      assert xs == [xs[0]] + xs[1..];
    }
  }

  // ----- `sorted(set)` of strings -----

  lemma {:induction false} LeastExists(s: set<string>) returns (x: string)
    requires s != {}
    ensures x in s && forall y :: y in s ==> StringLeq(x, y)
  {
    var z :| z in s;
    StringOrder(z, z, z);
    if s == {z} {
      x := z;
    } else {
      var rest := s - {z};
      assert s == rest + {z} && rest != {};
      var w := LeastExists(rest);
      StringOrder(w, z, w);
      x := if StringLeq(z, w) then z else w;
      forall y | y in s ensures StringLeq(x, y) {
        if y in rest { StringOrder(x, w, y); }
      }
    }
  }

  lemma SomeLeast(s: set<string>)
    requires s != {}
    ensures exists x :: x in s && forall y :: y in s ==> StringLeq(x, y)
  {
    var w := LeastExists(s);
  }

  function Least(s: set<string>): (x: string)
    requires s != {}
    ensures x in s && forall y :: y in s ==> StringLeq(x, y)
  {
    SomeLeast(s);
    assert forall x, y :: x in s && y in s && StringLeq(x, y) && StringLeq(y, x) ==> x == y by {
      forall x, y | x in s && y in s && StringLeq(x, y) && StringLeq(y, x) ensures x == y {
        StringOrder(x, y, x);
      }
    }
    var x :| x in s && forall y :: y in s ==> StringLeq(x, y);
    x
  }

  function SortedSet(s: set<string>): (r: seq<string>)
    ensures forall x :: x in r <==> x in s
    ensures forall i, j :: 0 <= i < j < |r| ==> r[i] != r[j] && StringLeq(r[i], r[j])
  {
    if s == {} then [] else var x := Least(s); [x] + SortedSet(s - {x})
  }
}
