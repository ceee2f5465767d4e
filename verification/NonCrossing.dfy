// Maximum-weight non-crossing matching between two sequences: a dynamic
// program whose table is read back with a tolerant comparison.
module NonCrossing {
  import opened Ordering

  type Weights = map<(nat, nat), real>

  type Pairs = seq<(nat, nat)>

  const TOLERANCE: real := 0.000000000001

  function Abs(x: real): real { if x < 0.0 then -x else x }

  // ----- what is being optimised -----

  // Pairs with a weight, inside the prefixes, in increasing order on both sides.
  ghost predicate IsMatching(w: Weights, n: nat, m: nat, ps: Pairs) {
    && (forall k :: 0 <= k < |ps| ==> ps[k] in w && ps[k].0 < n && ps[k].1 < m)
    && (forall k, l :: 0 <= k < l < |ps| ==> ps[k].0 < ps[l].0 && ps[k].1 < ps[l].1)
  }

  function WeightAt(w: Weights, p: (nat, nat)): real { if p in w then w[p] else 0.0 }

  function Total(w: Weights, ps: Pairs): real {
    if ps == [] then 0.0 else Total(w, ps[..|ps| - 1]) + WeightAt(w, ps[|ps| - 1])
  }

  // No matching outweighs `ps` by more than 1e-12 per pair of `ps`.
  ghost predicate NearOptimal(w: Weights, n: nat, m: nat, ps: Pairs) {
    && IsMatching(w, n, m, ps)
    && forall q :: IsMatching(w, n, m, q) ==> Total(w, q) <= Total(w, ps) + 0.000000000001 * |ps| as real
  }

  // ----- the recurrence and the traceback, as functions -----

  function Best(w: Weights, i: nat, j: nat): real {
    if i == 0 || j == 0 then 0.0
    else
      var skip := if Best(w, i - 1, j) >= Best(w, i, j - 1) then Best(w, i - 1, j) else Best(w, i, j - 1);
      if (i - 1, j - 1) in w && Best(w, i - 1, j - 1) + w[(i - 1, j - 1)] > skip
      then Best(w, i - 1, j - 1) + w[(i - 1, j - 1)] else skip
  }

  predicate TakesPair(w: Weights, i: nat, j: nat)
    requires i > 0 && j > 0
  {
    && (i - 1, j - 1) in w
    && Abs(Best(w, i, j) - (Best(w, i - 1, j - 1) + w[(i - 1, j - 1)])) < TOLERANCE
  }

  // A pair is accepted exactly when its cell is less than 1e-12 away from what
  // the pair would give.
  lemma TakesPairExactly(w: Weights, i: nat, j: nat)
    requires i > 0 && j > 0
    ensures TakesPair(w, i, j) <==>
              && (i - 1, j - 1) in w
              && var loss := Best(w, i, j) - Best(w, i - 1, j - 1) - w[(i - 1, j - 1)];
                 -0.000000000001 < loss < 0.000000000001
  {
    hide Best;
  }

  function Traceback(w: Weights, i: nat, j: nat): Pairs {
    if i == 0 || j == 0 then []
    else if TakesPair(w, i, j) then Traceback(w, i - 1, j - 1) + [(i - 1, j - 1)]
    else if Best(w, i, j) == Best(w, i - 1, j) then Traceback(w, i - 1, j)
    else Traceback(w, i, j - 1)
  }

  function Reverse(ps: Pairs): (rs: Pairs)
    ensures |rs| == |ps| && forall k :: 0 <= k < |ps| ==> rs[k] == ps[|ps| - 1 - k]
  {
    if ps == [] then [] else Reverse(ps[1..]) + [ps[0]]
  }

  // The first half of the algorithm: the table, row by row.
  method FillTable(w: Weights, n: nat, m: nat) returns (best: array2<real>)
    ensures fresh(best) && best.Length0 == n + 1 && best.Length1 == m + 1
    ensures forall a, b {:trigger best[a, b]} :: 0 <= a <= n && 0 <= b <= m ==> best[a, b] == Best(w, a, b)
  {
    best := new real[n + 1, m + 1]((_, _) => 0.0);
    for i := 1 to n + 1
      invariant forall a, b {:trigger best[a, b]} :: 0 <= a < i && 0 <= b <= m ==> best[a, b] == Best(w, a, b)
      invariant forall a :: i <= a <= n ==> best[a, 0] == 0.0
    {
      for j := 1 to m + 1
        invariant forall a, b {:trigger best[a, b]} :: 0 <= a < i && 0 <= b <= m ==> best[a, b] == Best(w, a, b)
        invariant forall b {:trigger best[i, b]} :: 0 <= b < j ==> best[i, b] == Best(w, i, b)
        invariant forall a :: i < a <= n ==> best[a, 0] == 0.0
      {
        var skipLeft := best[i - 1, j];
        var skipRight := best[i, j - 1];
        var candidate := if skipLeft >= skipRight then skipLeft else skipRight;
        if (i - 1, j - 1) in w {
          var paired := best[i - 1, j - 1] + w[(i - 1, j - 1)];
          if paired > candidate {
            candidate := paired;
          }
        }
        assert candidate == Best(w, i, j);
        best[i, j] := candidate;
      }
    }
  }

  method OptimalNonCrossing(w: Weights, n: nat, m: nat) returns (pairs: Pairs)
    ensures pairs == Traceback(w, n, m)
    ensures NearOptimal(w, n, m, pairs)
  {
    var best := FillTable(w, n, m);
    pairs := [];
    var i, j := n, m;
    while i > 0 && j > 0
      invariant 0 <= i <= n && 0 <= j <= m
      invariant forall a, b {:trigger best[a, b]} :: 0 <= a <= n && 0 <= b <= m ==> best[a, b] == Best(w, a, b)
      invariant Traceback(w, n, m) == Traceback(w, i, j) + Reverse(pairs)
      decreases i + j
    {
      if (i - 1, j - 1) in w && Abs(best[i, j] - (best[i - 1, j - 1] + w[(i - 1, j - 1)])) < TOLERANCE {
        assert TakesPair(w, i, j);
        ReverseAppend(pairs, (i - 1, j - 1));
        pairs := pairs + [(i - 1, j - 1)];
        i, j := i - 1, j - 1;
      } else if best[i, j] == best[i - 1, j] {
        i := i - 1;
      } else {
        j := j - 1;
      }
    }
    pairs := Reverse(pairs);
    TracebackIsNearOptimal(w, n, m);
  }

  lemma {:induction false} ReverseAppend(ps: Pairs, p: (nat, nat))
    ensures Reverse(ps + [p]) == [p] + Reverse(ps)
  {
    assert forall k :: 0 <= k <= |ps| ==> Reverse(ps + [p])[k] == ([p] + Reverse(ps))[k];
  }

  // ----- each cell is the maximum over its prefixes -----

  lemma {:induction false} BestGrows(w: Weights, i: nat, j: nat, i': nat, j': nat)
    requires i <= i' && j <= j'
    ensures 0.0 <= Best(w, i, j) <= Best(w, i', j')
    decreases i' + j'
  {
    if i' == i && j' == j {
      if i > 0 && j > 0 { BestGrows(w, i - 1, j, i - 1, j); }
    } else if i < i' {
      BestGrows(w, i, j, i' - 1, j');
      if j' > 0 { } else { assert Best(w, i, j) == 0.0; }
    } else {
      BestGrows(w, i, j, i', j' - 1);
    }
  }

  lemma {:induction false} BestBoundsEveryMatching(w: Weights, i: nat, j: nat, ps: Pairs)
    requires IsMatching(w, i, j, ps)
    ensures Total(w, ps) <= Best(w, i, j)
    decreases |ps|
  {
    if ps == [] {
      BestGrows(w, i, j, i, j);
    } else {
      var last := ps[|ps| - 1];
      var before := ps[..|ps| - 1];
      assert IsMatching(w, last.0, last.1, before);
      BestBoundsEveryMatching(w, last.0, last.1, before);
      assert Best(w, last.0 + 1, last.1 + 1) >= Best(w, last.0, last.1) + w[last];
      BestGrows(w, last.0 + 1, last.1 + 1, i, j);
    }
  }

  // The bound is reached, so `Best` is exactly the maximum.
  lemma {:induction false} BestIsReached(w: Weights, i: nat, j: nat) returns (ps: Pairs)
    ensures IsMatching(w, i, j, ps)
    ensures Total(w, ps) == Best(w, i, j)
  {
    if i == 0 || j == 0 {
      ps := [];
    } else if Best(w, i, j) == Best(w, i - 1, j) {
      ps := BestIsReached(w, i - 1, j);
    } else if Best(w, i, j) == Best(w, i, j - 1) {
      ps := BestIsReached(w, i, j - 1);
    } else {
      var before := BestIsReached(w, i - 1, j - 1);
      TotalAppend(w, before, (i - 1, j - 1));
      ps := before + [(i - 1, j - 1)];
    }
  }

  lemma CellIsMaximum(w: Weights, i: nat, j: nat, x: real)
    ensures x == Best(w, i, j) <==>
            && (exists ps :: IsMatching(w, i, j, ps) && Total(w, ps) == x)
            && (forall ps :: IsMatching(w, i, j, ps) ==> Total(w, ps) <= x)
  {
    var top := BestIsReached(w, i, j);
    forall ps | IsMatching(w, i, j, ps) ensures Total(w, ps) <= Best(w, i, j) {
      BestBoundsEveryMatching(w, i, j, ps);
    }
  }

  // ----- the traceback loses at most one tolerance per pair -----

  lemma TracebackIsNearOptimal(w: Weights, i: nat, j: nat)
    ensures NearOptimal(w, i, j, Traceback(w, i, j))
  {
    TracebackIsNearBest(w, i, j);
    forall q | IsMatching(w, i, j, q) ensures Total(w, q) <= Best(w, i, j) {
      BestBoundsEveryMatching(w, i, j, q);
    }
  }

  lemma {:induction false} TracebackIsMatching(w: Weights, i: nat, j: nat)
    ensures IsMatching(w, i, j, Traceback(w, i, j))
  {
    if i > 0 && j > 0 {
      if TakesPair(w, i, j) {
        TracebackIsMatching(w, i - 1, j - 1);
      } else if Best(w, i, j) == Best(w, i - 1, j) {
        TracebackIsMatching(w, i - 1, j);
      } else {
        TracebackIsMatching(w, i, j - 1);
      }
    }
  }

  lemma TotalAppend(w: Weights, ps: Pairs, p: (nat, nat))
    ensures Total(w, ps + [p]) == Total(w, ps) + WeightAt(w, p)
  {
    assert (ps + [p])[..|ps|] == ps;
  }

  lemma {:induction false} TracebackIsNearBest(w: Weights, i: nat, j: nat)
    ensures IsMatching(w, i, j, Traceback(w, i, j))
    ensures Best(w, i, j) - TOLERANCE * |Traceback(w, i, j)| as real <= Total(w, Traceback(w, i, j)) <= Best(w, i, j)
  {
    TracebackIsMatching(w, i, j);
    BestBoundsEveryMatching(w, i, j, Traceback(w, i, j));
    if i > 0 && j > 0 {
      if TakesPair(w, i, j) {
        TracebackIsNearBest(w, i - 1, j - 1);
        var before := Traceback(w, i - 1, j - 1);
        hide Best, Total;
        TotalAppend(w, before, (i - 1, j - 1));
        assert |Traceback(w, i, j)| as real == |before| as real + 1.0;
      } else if Best(w, i, j) == Best(w, i - 1, j) {
        TracebackIsNearBest(w, i - 1, j);
      } else {
        LastBranchIsLossless(w, i, j);
        TracebackIsNearBest(w, i, j - 1);
      }
    }
  }

  // The final `else` is reached only when dropping the right annotation costs nothing.
  lemma LastBranchIsLossless(w: Weights, i: nat, j: nat)
    requires i > 0 && j > 0
    requires !TakesPair(w, i, j) && Best(w, i, j) != Best(w, i - 1, j)
    ensures Best(w, i, j) == Best(w, i, j - 1)
  {
    assert (i - 1, j - 1) in w ==> Best(w, i, j) != Best(w, i - 1, j - 1) + w[(i - 1, j - 1)];
  }

  // ----- exactly when the result is optimal -----

  // Some accepted step of the traceback is not an equality.
  predicate AcceptsLoss(w: Weights, i: nat, j: nat) {
    i > 0 && j > 0 &&
    if TakesPair(w, i, j) then
      || Best(w, i, j) != Best(w, i - 1, j - 1) + w[(i - 1, j - 1)]
      || AcceptsLoss(w, i - 1, j - 1)
    else if Best(w, i, j) == Best(w, i - 1, j) then AcceptsLoss(w, i - 1, j)
    else AcceptsLoss(w, i, j - 1)
  }

  // What an accepted pair adds, and the most it can fall short.
  lemma TakenStep(w: Weights, i: nat, j: nat)
    requires i > 0 && j > 0 && TakesPair(w, i, j)
    ensures Total(w, Traceback(w, i, j)) == Total(w, Traceback(w, i - 1, j - 1)) + w[(i - 1, j - 1)]
    ensures Best(w, i, j) >= Best(w, i - 1, j - 1) + w[(i - 1, j - 1)]
    ensures Best(w, i - 1, j - 1) >= Total(w, Traceback(w, i - 1, j - 1))
  {
    TracebackIsNearBest(w, i - 1, j - 1);
    TotalAppend(w, Traceback(w, i - 1, j - 1), (i - 1, j - 1));
    hide Total, IsMatching;
  }

  lemma {:induction false} OptimalExactlyWithoutLoss(w: Weights, i: nat, j: nat)
    ensures Total(w, Traceback(w, i, j)) == Best(w, i, j) <==> !AcceptsLoss(w, i, j)
  {
    if i > 0 && j > 0 {
      if TakesPair(w, i, j) {
        OptimalExactlyWithoutLoss(w, i - 1, j - 1);
        TakenStep(w, i, j);
        hide Best, Total, Traceback, TakesPair;
      } else if Best(w, i, j) == Best(w, i - 1, j) {
        OptimalExactlyWithoutLoss(w, i - 1, j);
      } else {
        LastBranchIsLossless(w, i, j);
        OptimalExactlyWithoutLoss(w, i, j - 1);
      }
    }
  }

  // One left annotation, two right ones, weights closer than the tolerance:
  // the later and lighter pair is returned.
  lemma ToleranceCanLoseTheOptimum()
    ensures var w: Weights := map[(0, 0) := 0.9, (0, 1) := 0.8999999999995];
            Traceback(w, 1, 2) == [(0, 1)] && Best(w, 1, 2) == 0.9
  {
    var w: Weights := map[(0, 0) := 0.9, (0, 1) := 0.8999999999995];
    assert Best(w, 1, 1) == 0.9;
    assert Best(w, 1, 2) == 0.9;
    assert Traceback(w, 0, 1) == [];
  }

  // ----- swapping the annotators -----

  function Transpose(w: Weights): (t: Weights)
    ensures forall p: (nat, nat) :: p in t <==> (p.1, p.0) in w
    ensures forall p: (nat, nat) :: p in t ==> t[p] == w[(p.1, p.0)]
  {
    map p | p in set q | q in w :: (q.1, q.0) :: w[(p.1, p.0)]
  }

  ghost predicate Transposed(w: Weights, t: Weights) {
    && (forall p: (nat, nat) :: p in t <==> (p.1, p.0) in w)
    && (forall p: (nat, nat) :: p in t ==> t[p] == w[(p.1, p.0)])
  }

  lemma {:induction false} SwapKeepsBest(w: Weights, t: Weights, i: nat, j: nat)
    requires Transposed(w, t)
    ensures Best(t, j, i) == Best(w, i, j)
  {
    if i > 0 && j > 0 {
      SwapKeepsBest(w, t, i - 1, j);
      SwapKeepsBest(w, t, i, j - 1);
      SwapKeepsBest(w, t, i - 1, j - 1);
      var here, there := (i - 1, j - 1), (j - 1, i - 1);
      if here in w {
        assert there in t && t[there] == w[here];
      } else {
        assert there !in t;
      }
    }
  }

  lemma SwapKeepsOptimum(w: Weights, i: nat, j: nat)
    ensures Best(Transpose(w), j, i) == Best(w, i, j)
  {
    SwapKeepsBest(w, Transpose(w), i, j);
  }

  lemma FlipIsMatching(w: Weights, n: nat, m: nat, ps: Pairs)
    requires IsMatching(w, n, m, ps)
    ensures IsMatching(Transpose(w), m, n, Swapped(ps))
  {
  }

  lemma {:induction false} FlipKeepsTotal(w: Weights, ps: Pairs)
    ensures Total(Transpose(w), Swapped(ps)) == Total(w, ps)
  {
    if ps != [] {
      var before, p := ps[..|ps| - 1], ps[|ps| - 1];
      FlipKeepsTotal(w, before);
      assert Swapped(ps)[..|ps| - 1] == Swapped(before);
      assert WeightAt(Transpose(w), (p.1, p.0)) == WeightAt(w, (p.0, p.1)) && p == (p.0, p.1);
    }
  }

  // ----- when the admissible pairs already form a matching, all are returned -----

  // Every row and column has at most one weight, none cross, all are positive.
  ghost predicate Unambiguous(w: Weights) {
    && (forall p :: p in w ==> w[p] > 0.0)
    && (forall p, q :: p in w && q in w && p != q ==> (p.0 < q.0 && p.1 < q.1) || (q.0 < p.0 && q.1 < p.1))
  }

  predicate RowEmpty(w: Weights, i: nat, j: nat) { forall p :: p in w ==> p.0 != i || p.1 >= j }

  predicate ColumnEmpty(w: Weights, i: nat, j: nat) { forall p :: p in w ==> p.1 != j || p.0 >= i }

  lemma {:induction false} EmptyRow(w: Weights, i: nat, j: nat)
    requires i > 0 && RowEmpty(w, i - 1, j)
    ensures Best(w, i, j) == Best(w, i - 1, j)
  {
    if j > 0 {
      EmptyRow(w, i, j - 1);
      BestGrows(w, i - 1, j - 1, i - 1, j);
    }
  }

  lemma {:induction false} EmptyColumn(w: Weights, i: nat, j: nat)
    requires j > 0 && ColumnEmpty(w, i, j - 1)
    ensures Best(w, i, j) == Best(w, i, j - 1)
  {
    if i > 0 {
      EmptyColumn(w, i - 1, j);
      BestGrows(w, i - 1, j - 1, i, j - 1);
    }
  }

  lemma WeightIsTaken(w: Weights, i: nat, j: nat)
    requires Unambiguous(w) && i > 0 && j > 0 && (i - 1, j - 1) in w
    ensures TakesPair(w, i, j)
  {
    EmptyRow(w, i, j - 1);
    EmptyColumn(w, i - 1, j);
  }

  // If dropping row i - 1 is free, the row holds no weight before column j.
  lemma FreeRowIsEmpty(w: Weights, i: nat, j: nat)
    requires Unambiguous(w) && i > 0
    requires Best(w, i, j) == Best(w, i - 1, j)
    ensures RowEmpty(w, i - 1, j)
  {
    forall p | p in w && p.0 == i - 1 ensures p.1 >= j {
      if p.1 < j {
        BestGrows(w, i, p.1 + 1, i, j);
        assert Best(w, i, p.1 + 1) >= Best(w, i - 1, p.1) + w[p];
        EmptyColumns(w, p, j);
      }
    }
  }

  lemma {:induction false} EmptyColumns(w: Weights, p: (nat, nat), j: nat)
    requires Unambiguous(w) && p in w && p.1 <= j
    ensures Best(w, p.0, j) == Best(w, p.0, p.1)
    decreases j
  {
    if p.1 < j {
      EmptyColumn(w, p.0, j);
      EmptyColumns(w, p, j - 1);
    }
  }

  lemma {:induction false} TracebackTakesAll(w: Weights, i: nat, j: nat)
    requires Unambiguous(w)
    ensures forall p :: p in Traceback(w, i, j) <==> p in w && p.0 < i && p.1 < j
  {
    if i > 0 && j > 0 {
      if TakesPair(w, i, j) {
        TracebackTakesAll(w, i - 1, j - 1);
      } else if Best(w, i, j) == Best(w, i - 1, j) {
        FreeRowIsEmpty(w, i, j);
        TracebackTakesAll(w, i - 1, j);
      } else {
        LastColumnIsEmpty(w, i, j);
        TracebackTakesAll(w, i, j - 1);
      }
    }
  }

  lemma LastColumnIsEmpty(w: Weights, i: nat, j: nat)
    requires Unambiguous(w) && i > 0 && j > 0
    requires !TakesPair(w, i, j) && Best(w, i, j) != Best(w, i - 1, j)
    ensures ColumnEmpty(w, i, j - 1)
  {
    if (i - 1, j - 1) in w { WeightIsTaken(w, i, j); }
    if RowEmpty(w, i - 1, j) { EmptyRow(w, i, j); }
    var p :| p in w && p.0 == i - 1 && p.1 < j;
  }

  // ----- two matchings that are both near-optimal and unique coincide -----

  // No other matching comes within the error budget of the optimum.
  ghost predicate UniqueNearOptimum(w: Weights, n: nat, m: nat) {
    forall p, q :: NearOptimal(w, n, m, p) && NearOptimal(w, n, m, q) ==> p == q
  }

  lemma SwapKeepsUniqueMatching(w: Weights, n: nat, m: nat)
    requires UniqueNearOptimum(w, n, m)
    ensures Traceback(Transpose(w), m, n) == Swapped(Traceback(w, n, m))
  {
    var t := Transpose(w);
    var here, there := Traceback(w, n, m), Traceback(t, m, n);
    assert Transpose(t) == w;
    TracebackIsNearOptimal(w, n, m);
    TracebackIsNearBest(t, m, n);
    FlipIsMatching(t, m, n, there);
    FlipKeepsTotal(t, there);
    SwapKeepsOptimum(w, n, m);
    forall q | IsMatching(w, n, m, q) ensures Total(w, q) <= Best(w, n, m) {
      BestBoundsEveryMatching(w, n, m, q);
    }
    assert NearOptimal(w, n, m, Swapped(there));
    assert Swapped(Swapped(there)) == there;
  }

  ghost predicate Increasing(p: Pairs) {
    forall k, l :: 0 <= k < l < |p| ==> p[k].0 < p[l].0
  }

  lemma LastIsLargest(p: Pairs, x: (nat, nat))
    requires Increasing(p) && x in p
    ensures x == p[|p| - 1] || x.0 < p[|p| - 1].0
    ensures x in p[..|p| - 1] <==> x != p[|p| - 1]
  {
  }

  lemma {:induction false} SameElementsSameList(p: Pairs, q: Pairs)
    requires Increasing(p) && Increasing(q)
    requires forall x :: x in p <==> x in q
    ensures p == q
  {
    assert p != [] ==> p[0] in q;
    assert q != [] ==> q[0] in p;
    if p != [] {
      var x, y := p[|p| - 1], q[|q| - 1];
      assert x in q && y in p;
      LastIsLargest(p, y);
      LastIsLargest(q, x);
      var p', q' := p[..|p| - 1], q[..|q| - 1];
      forall z ensures z in p' <==> z in q' {
        if z in p { LastIsLargest(p, z); LastIsLargest(q, z); }
      }
      SameElementsSameList(p', q');
      assert p == p' + [x] && q == q' + [x];
    }
  }

  lemma FlipElements(ps: Pairs)
    ensures forall p: (nat, nat) :: p in Swapped(ps) <==> (p.1, p.0) in ps
  {
    forall p: (nat, nat) ensures p in Swapped(ps) <==> (p.1, p.0) in ps {
      if (p.1, p.0) in ps {
        var k :| 0 <= k < |ps| && ps[k] == (p.1, p.0);
        assert Swapped(ps)[k] == p;
      }
    }
  }

  lemma TransposeUnambiguous(w: Weights)
    requires Unambiguous(w)
    ensures Unambiguous(Transpose(w))
  {
    var t := Transpose(w);
    forall p, q | p in t && q in t && p != q
      ensures (p.0 < q.0 && p.1 < q.1) || (q.0 < p.0 && q.1 < p.1)
    {
      assert p == (p.0, p.1) && q == (q.0, q.1);
      var p', q' := (p.1, p.0), (q.1, q.0);
      assert p' in w && q' in w && p' != q';
    }
  }

  lemma SwapKeepsUnambiguousMatching(w: Weights, n: nat, m: nat)
    requires Unambiguous(w)
    ensures Traceback(Transpose(w), m, n) == Swapped(Traceback(w, n, m))
  {
    var t := Transpose(w);
    var here, there := Traceback(w, n, m), Traceback(t, m, n);
    forall p: (nat, nat) ensures p in Swapped(here) <==> p in there {
      TransposeUnambiguous(w);
      TracebackTakesAll(w, n, m);
      TracebackTakesAll(t, m, n);
      FlipElements(here);
    }
    TracebackIsNearBest(w, n, m);
    TracebackIsNearBest(t, m, n);
    FlipIsMatching(w, n, m, here);
    SameElementsSameList(Swapped(here), there);
  }

  // A tie: one pair of weight 1, or two of one half each. Which is returned
  // depends on which side is called left.
  lemma TiedWeights(w: Weights)
    requires w == map[(0, 0) := 0.5, (0, 1) := 0.8, (0, 2) := 1.0, (1, 1) := 0.5]
    ensures |Traceback(w, 2, 3)| == 1
    ensures |Traceback(Transpose(w), 3, 2)| == 2
  {
    assert Best(w, 1, 1) == 0.5 && Best(w, 1, 2) == 0.8 && Best(w, 1, 3) == 1.0;
    assert Best(w, 2, 1) == 0.5 && Best(w, 2, 2) == 1.0 && Best(w, 2, 3) == 1.0;
    assert Traceback(w, 0, 2) == [] && Traceback(w, 1, 3) == [(0, 2)];
    var t := Transpose(w);
    assert t == map[(0, 0) := 0.5, (1, 0) := 0.8, (2, 0) := 1.0, (1, 1) := 0.5];
    SwapKeepsOptimum(w, 1, 1);
    SwapKeepsOptimum(w, 2, 2);
    SwapKeepsOptimum(w, 2, 3);
    SwapKeepsOptimum(w, 1, 2);
    SwapKeepsOptimum(w, 1, 3);
    assert Traceback(t, 0, 0) == [] && Traceback(t, 1, 1) == [(0, 0)];
    assert Traceback(t, 2, 2) == [(0, 0), (1, 1)];
  }
}
