// Chunk sequencing: detecting loss, duplication and reordering.
module Sequencing {
  import opened Taxonomy
  import opened Arithmetic

  datatype Verdict = Accepted | Duplicate | GapDetected | OutOfOrder

  datatype Gap = Gap(first: int, last: int)
  {
    function Count(): int { last - first + 1 }
  }

  // ----- the ledger as a value -----

  datatype ChunkState = ChunkState(highest: int, seenAhead: set<int>, accepted: set<int>, duplicates: nat)

  const EmptyChunks := ChunkState(-1, {}, {}, 0)

  function Accept(c: ChunkState, n: int): ChunkState {
    c.(accepted := c.accepted + {n}, highest := Max(c.highest, n))
  }

  function Offered(c: ChunkState, n: nat): (ChunkState, Verdict) {
    if n in c.accepted then (c.(duplicates := c.duplicates + 1), Duplicate)
    else if n == c.highest + 1 then (Accept(c, n), Accepted)
    else if n > c.highest + 1 then (Accept(c, n).(seenAhead := c.seenAhead + {n}), GapDetected)
    else (Accept(c, n), OutOfOrder)
  }

  // Everything accepted lies in 0..highest, the highest was accepted, and
  // nothing noted as ahead is beyond it.
  ghost predicate Consistent(c: ChunkState) {
    && c.highest >= -1
    && (c.highest >= 0 ==> c.highest in c.accepted)
    && (forall x :: x in c.accepted ==> 0 <= x <= c.highest)
    && c.seenAhead <= c.accepted
  }

  lemma OfferedStaysConsistent(c: ChunkState, n: nat)
    requires Consistent(c)
    ensures Consistent(Offered(c, n).0)
    ensures Offered(c, n).0.accepted == c.accepted + {n}
    ensures Offered(c, n).1 == Duplicate <==> n in c.accepted
  {
  }

  // The numbers below n that were never accepted, in order.
  function Missing(accepted: set<int>, n: nat): seq<int> {
    if n == 0 then []
    else Missing(accepted, n - 1) + if n - 1 in accepted then [] else [n - 1]
  }

  // One more number: it lengthens the last run or starts a new one.
  function Extended(runs: seq<Gap>, x: int): seq<Gap> {
    if runs != [] && x == runs[|runs| - 1].last + 1
    then runs[..|runs| - 1] + [Gap(runs[|runs| - 1].first, x)]
    else runs + [Gap(x, x)]
  }

  function Runs(missing: seq<int>): seq<Gap> {
    if missing == [] then []
    else Extended(Runs(missing[..|missing| - 1]), missing[|missing| - 1])
  }

  function GapsOf(c: ChunkState): seq<Gap>
    requires c.highest >= -1
  {
    Runs(Missing(c.accepted, c.highest + 1))
  }

  function MissingCount(gaps: seq<Gap>): int {
    if gaps == [] then 0 else MissingCount(gaps[..|gaps| - 1]) + gaps[|gaps| - 1].Count()
  }

  function LossRatio(missing: int, highest: int): real {
    var expected := highest + 1;
    if expected <= 0 then 0.0 else missing as real / expected as real
  }

  // ----- the ledger as the mutable object it is -----

  class ChunkLedger {
    var highestSeen: int
    var seenAhead: set<int>
    var accepted: set<int>
    var gaps: seq<Gap>
    var duplicates: nat

    ghost predicate Valid()
      reads this
    {
      Consistent(View())
    }

    function View(): ChunkState
      reads this
    {
      ChunkState(highestSeen, seenAhead, accepted, duplicates)
    }

    constructor ()
      ensures Valid() && View() == EmptyChunks && gaps == []
    {
      highestSeen, seenAhead, accepted, gaps, duplicates := -1, {}, {}, [], 0;
    }

    // None when the number is refused.
    method Offer(sequence: int) returns (verdict: Option<Verdict>)
      requires Valid()
      modifies this
      ensures Valid() && gaps == old(gaps)
      ensures sequence < 0 ==> verdict == None && View() == old(View())
      ensures sequence >= 0 ==>
                View() == Offered(old(View()), sequence).0 && verdict == Some(Offered(old(View()), sequence).1)
    {
      if sequence < 0 {
        return None;
      }
      if sequence in accepted {
        duplicates := duplicates + 1;
        return Some(Duplicate);
      }
      var expected := highestSeen + 1;
      if sequence == expected {
        AcceptChunk(sequence);
        DrainAhead();
        return Some(Accepted);
      }
      if sequence > expected {
        seenAhead := seenAhead + {sequence};
        AcceptChunk(sequence);
        return Some(GapDetected);
      }
      AcceptChunk(sequence);
      return Some(OutOfOrder);
    }

    method AcceptChunk(sequence: int)
      modifies this`accepted, this`highestSeen
      ensures accepted == old(accepted) + {sequence} && highestSeen == Max(old(highestSeen), sequence)
    {
      accepted := accepted + {sequence};
      highestSeen := Max(highestSeen, sequence);
    }

    // Advances over a contiguous stretch noted as ahead. In a valid ledger
    // there is none, so the loop of a valid ledger never iterates.
    method DrainAhead()
      modifies this`highestSeen, this`seenAhead
      ensures highestSeen >= old(highestSeen)
      ensures forall x :: old(highestSeen) < x <= highestSeen ==> x in old(seenAhead)
      ensures highestSeen + 1 !in old(seenAhead)
      ensures seenAhead == set x | x in old(seenAhead) && !(old(highestSeen) < x <= highestSeen)
    {
      while highestSeen + 1 in seenAhead
        invariant highestSeen >= old(highestSeen)
        invariant forall x :: old(highestSeen) < x <= highestSeen ==> x in old(seenAhead)
        invariant seenAhead == set x | x in old(seenAhead) && !(old(highestSeen) < x <= highestSeen)
        decreases |seenAhead|
      {
        seenAhead := seenAhead - {highestSeen + 1};
        highestSeen := highestSeen + 1;
      }
    }

    method Finalize() returns (found: seq<Gap>)
      requires Valid()
      modifies this`gaps
      ensures Valid() && View() == old(View())
      ensures gaps == found == GapsOf(View())
    {
      found := Collapse(Missing(accepted, highestSeen + 1));
      gaps := found;
    }
  }

  // Sorted numbers into contiguous runs.
  method Collapse(missing: seq<int>) returns (runs: seq<Gap>)
    ensures runs == Runs(missing)
  {
    if missing == [] {
      return [];
    }
    runs := [];
    var start, previous := missing[0], missing[0];
    assert missing[..1] == [missing[0]];
    for k := 1 to |missing|
      invariant runs + [Gap(start, previous)] == Runs(missing[..k])
    {
      assert missing[..k + 1][..k] == missing[..k];
      ghost var so := Runs(missing[..k]);
      assert so[|so| - 1] == Gap(start, previous) && so[..|so| - 1] == runs;
      if missing[k] == previous + 1 {
        previous := missing[k];
        continue;
      }
      runs := runs + [Gap(start, previous)];
      start, previous := missing[k], missing[k];
    }
    assert missing[..|missing|] == missing;
    runs := runs + [Gap(start, previous)];
  }

  // ----- what the runs are -----

  ghost predicate Covers(gaps: seq<Gap>, x: int) {
    exists k :: 0 <= k < |gaps| && gaps[k].first <= x <= gaps[k].last
  }

  // Non-empty, in order, and with at least one number between neighbours: no
  // run can be extended.
  ghost predicate Maximal(gaps: seq<Gap>) {
    && (forall k :: 0 <= k < |gaps| ==> gaps[k].first <= gaps[k].last)
    && (forall k, l :: 0 <= k < l < |gaps| ==> gaps[k].last + 1 < gaps[l].first)
  }

  lemma {:induction false} MissingIsExact(accepted: set<int>, n: nat)
    ensures forall x :: x in Missing(accepted, n) <==> 0 <= x < n && x !in accepted
    ensures forall k :: 0 <= k < |Missing(accepted, n)| ==> 0 <= Missing(accepted, n)[k] < n
    ensures forall k, l :: 0 <= k < l < |Missing(accepted, n)| ==> Missing(accepted, n)[k] < Missing(accepted, n)[l]
  {
    if n > 0 { MissingIsExact(accepted, n - 1); }
  }

  function Below(accepted: set<int>, n: nat): set<int> { set x | x in accepted && 0 <= x < n }

  lemma {:induction false} MissingIsTheRest(accepted: set<int>, n: nat)
    ensures |Missing(accepted, n)| + |Below(accepted, n)| == n
  {
    if n > 0 {
      MissingIsTheRest(accepted, n - 1);
      assert Below(accepted, n) == if n - 1 in accepted then Below(accepted, n - 1) + {n - 1} else Below(accepted, n - 1);
    } else {
      assert Below(accepted, n) == {};
    }
  }

  lemma CoversAppend(gaps: seq<Gap>, g: Gap, x: int)
    ensures Covers(gaps + [g], x) <==> Covers(gaps, x) || g.first <= x <= g.last
  {
    var all := gaps + [g];
    if Covers(gaps, x) {
      var k :| 0 <= k < |gaps| && gaps[k].first <= x <= gaps[k].last;
      assert all[k] == gaps[k];
    }
    if g.first <= x <= g.last { assert all[|gaps|] == g; }
  }

  lemma ExtendedCovers(runs: seq<Gap>, y: int, x: int)
    requires runs != [] ==> runs[|runs| - 1].first <= runs[|runs| - 1].last
    ensures Covers(Extended(runs, y), x) <==> Covers(runs, x) || x == y
  {
    var m := |runs| - 1;
    if runs != [] && y == runs[m].last + 1 {
      assert runs == runs[..m] + [runs[m]];
      CoversAppend(runs[..m], runs[m], x);
      CoversAppend(runs[..m], Gap(runs[m].first, y), x);
    } else {
      CoversAppend(runs, Gap(y, y), x);
    }
  }

  lemma CountAppend(gaps: seq<Gap>, g: Gap)
    ensures MissingCount(gaps + [g]) == MissingCount(gaps) + g.Count()
  {
    assert (gaps + [g])[..|gaps|] == gaps;
  }

  lemma ExtendedIsMaximal(runs: seq<Gap>, y: int)
    requires Maximal(runs) && (runs != [] ==> runs[|runs| - 1].last < y)
    ensures var e := Extended(runs, y);
            && Maximal(e) && e != [] && e[|e| - 1].last == y
            && MissingCount(e) == MissingCount(runs) + 1
  {
    var m := |runs| - 1;
    if runs != [] && y == runs[m].last + 1 {
      assert runs == runs[..m] + [runs[m]];
      CountAppend(runs[..m], runs[m]);
      CountAppend(runs[..m], Gap(runs[m].first, y));
    } else {
      CountAppend(runs, Gap(y, y));
      assert runs != [] ==> runs[m].last + 1 < y;
    }
  }

  lemma {:induction false} RunsAreMaximal(missing: seq<int>)
    requires forall k, l :: 0 <= k < l < |missing| ==> missing[k] < missing[l]
    ensures Maximal(Runs(missing))
    ensures missing != [] ==> Runs(missing) != [] && Runs(missing)[|Runs(missing)| - 1].last == missing[|missing| - 1]
    ensures MissingCount(Runs(missing)) == |missing|
  {
    if missing != [] {
      RunsAreMaximal(missing[..|missing| - 1]);
      ExtendedIsMaximal(Runs(missing[..|missing| - 1]), missing[|missing| - 1]);
    }
  }

  lemma {:induction false} RunsCover(missing: seq<int>, x: int)
    requires forall k, l :: 0 <= k < l < |missing| ==> missing[k] < missing[l]
    ensures Covers(Runs(missing), x) <==> x in missing
  {
    if missing != [] {
      var before, y := missing[..|missing| - 1], missing[|missing| - 1];
      hide Extended, Covers;
      RunsCover(before, x);
      RunsAreMaximal(before);
      ExtendedCovers(Runs(before), y, x);
      assert missing == before + [y];
    }
  }

  // ----- whole sessions -----

  function OfferAll(c: ChunkState, offers: seq<nat>): ChunkState {
    if offers == [] then c else Offered(OfferAll(c, offers[..|offers| - 1]), offers[|offers| - 1]).0
  }

  function Numbers(offers: seq<nat>): set<int> {
    set k: nat | k < |offers| :: offers[k]
  }

  lemma {:induction false} OfferAllRemembers(offers: seq<nat>)
    ensures var c := OfferAll(EmptyChunks, offers);
            Consistent(c) && c.accepted == Numbers(offers) && |offers| == |c.accepted| + c.duplicates
  {
    if offers != [] {
      var n := |offers| - 1;
      OfferAllRemembers(offers[..n]);
      var c := OfferAll(EmptyChunks, offers[..n]);
      OfferedStaysConsistent(c, offers[n]);
      assert Numbers(offers) == Numbers(offers[..n]) + {offers[n]} by {
        forall x | x in Numbers(offers) ensures x in Numbers(offers[..n]) + {offers[n]} {
          var k: nat :| k < |offers| && offers[k] == x;
          if k < n { assert offers[..n][k] == x; }
        }
        forall k: nat | k < n ensures offers[..n][k] in Numbers(offers) { assert offers[..n][k] == offers[k]; }
        assert offers[n] in Numbers(offers);
      }
    }
  }

  // What closing a session reports about loss, for any order of arrival.
  ghost predicate LossIsExact(c: ChunkState, offered: set<int>)
    requires c.highest >= -1
  {
    var gaps := GapsOf(c);
    && Maximal(gaps)
    && (forall x :: Covers(gaps, x) <==> 0 <= x <= c.highest && x !in offered)
    && |offered| + MissingCount(gaps) == c.highest + 1
  }

  // The ratio is the missing over all that were expected.
  ghost predicate RatioIsExact(c: ChunkState)
    requires c.highest >= -1
  {
    var missing := MissingCount(GapsOf(c));
    && 0.0 <= LossRatio(missing, c.highest) < 1.0
    && LossRatio(missing, c.highest) * (c.highest + 1) as real == missing as real
  }

  // What the next number is told, by the numbers that came before it alone.
  ghost predicate VerdictFits(verdict: Verdict, offers: seq<nat>, n: nat) {
    match verdict
    case Duplicate => n in offers
    case Accepted => (forall x :: x in offers ==> x < n) && (n == 0 || n - 1 in offers)
    case GapDetected => (forall x :: x in offers ==> x < n) && n > 0 && n - 1 !in offers
    case OutOfOrder => n !in offers && exists x :: x in offers && x > n
  }

  lemma VerdictsFollowOffers(offers: seq<nat>, n: nat)
    ensures VerdictFits(Offered(OfferAll(EmptyChunks, offers), n).1, offers, n)
  {
    var c := OfferAll(EmptyChunks, offers);
    OfferAllRemembers(offers);
    hide OfferAll;
    assert forall x: nat :: x in offers <==> x in c.accepted by {
      forall x: nat ensures x in offers <==> x in c.accepted {
        if x in offers { var k: nat :| k < |offers| && offers[k] == x; }
      }
    }
  }

  lemma LossIsExactlyWhatNeverArrived(offers: seq<nat>)
    ensures OfferAll(EmptyChunks, offers).highest >= -1
    ensures LossIsExact(OfferAll(EmptyChunks, offers), Numbers(offers))
    ensures RatioIsExact(OfferAll(EmptyChunks, offers))
  {
    var c := OfferAll(EmptyChunks, offers);
    OfferAllRemembers(offers);
    ConsistentLoss(c);
    ConsistentRatio(c);
  }

  lemma ConsistentRatio(c: ChunkState)
    requires Consistent(c) && LossIsExact(c, c.accepted)
    ensures RatioIsExact(c)
  {
    hide GapsOf, LossRatio, Maximal, Covers;
    var missing := MissingCount(GapsOf(c));
    assert c.highest >= 0 ==> c.highest in c.accepted;
    MissingIsNatural(GapsOf(c));
    RatioIs(missing, c.highest + 1);
  }

  lemma {:induction false} MissingIsNatural(gaps: seq<Gap>)
    requires Maximal(gaps)
    ensures MissingCount(gaps) >= 0
  {
    if gaps != [] { MissingIsNatural(gaps[..|gaps| - 1]); }
  }

  lemma ConsistentLoss(c: ChunkState)
    requires Consistent(c)
    ensures LossIsExact(c, c.accepted)
  {
    hide Missing, Runs;
    var n := c.highest + 1;
    var missing := Missing(c.accepted, n);
    MissingIsExact(c.accepted, n);
    MissingIsTheRest(c.accepted, n);
    RunsAreMaximal(missing);
    forall x ensures Covers(GapsOf(c), x) <==> 0 <= x <= c.highest && x !in c.accepted {
      RunsCover(missing, x);
    }
    assert Below(c.accepted, n) == c.accepted;
  }

  lemma RatioIs(missing: nat, n: nat)
    requires missing < n || missing == n == 0
    ensures 0.0 <= LossRatio(missing, n - 1) < 1.0
    ensures LossRatio(missing, n - 1) * n as real == missing as real
  {
    if n > 0 {
      ShareBelowOne(missing, n);
      DivCompare(missing as real, n as real, missing as real / n as real);
    }
  }

  lemma ShareBelowOne(k: nat, n: nat)
    requires k < n
    ensures 0.0 <= k as real / n as real < 1.0
  {
    DivCompare(k as real, n as real, 0.0);
    DivCompare(k as real, n as real, 1.0);
  }

  // The order of arrival, and redelivery, change nothing that is reported.
  lemma LossForgetsOrder(a: seq<nat>, b: seq<nat>)
    requires Numbers(a) == Numbers(b)
    ensures var c, d := OfferAll(EmptyChunks, a), OfferAll(EmptyChunks, b);
            c.highest == d.highest >= -1 && GapsOf(c) == GapsOf(d)
  {
    OfferAllRemembers(a);
    OfferAllRemembers(b);
  }
}
