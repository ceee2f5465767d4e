// The verbatim transcript and its partial/final reconciliation.
module Transcript {
  import opened Taxonomy
  import opened Ordering
  import opened Timeline
  import opened Calibration
  import opened EventIdentity

  datatype WordToken = WordToken(
    id: TokenId, rawText: string, interval: Interval, confidence: Confidence, isFinal: bool)
  {
    function Finalize(): WordToken { this.(isFinal := true) }
  }

  type Tokens = seq<WordToken>

  // Ids of one run that share a start share everything but the text, so the
  // text decides between them.
  function TokenKey(t: WordToken): Key { Key(t.interval.start, t.interval.end, t.id.text) }

  predicate IsFinal(t: WordToken) { t.isFinal }

  predicate IsProvisional(t: WordToken) { !t.isFinal }

  function FinalTokens(ts: Tokens): Tokens { Filter(ts, IsFinal) }

  function ProvisionalTokens(ts: Tokens): Tokens { Filter(ts, IsProvisional) }

  // The largest end of a list, and zero of an empty one.
  function LatestEnd(ts: Tokens): (ms: nat)
    ensures forall t :: t in ts ==> t.interval.end <= ms
    ensures ts == [] ==> ms == 0
    ensures ts != [] ==> exists t :: t in ts && t.interval.end == ms
  {
    if ts == [] then 0
    else
      var rest := LatestEnd(ts[1..]);
      if |ts| == 1 || ts[0].interval.end > rest then assert ts[0] in ts; ts[0].interval.end
      else rest
  }

  function Frontier(ts: Tokens): nat { LatestEnd(FinalTokens(ts)) }

  datatype Result = Ok(tokens: Tokens) | TranscriptViolation

  function Build(ts: Tokens): Tokens { Sort(ts, TokenKey) }

  // Replaces the revisable tail by a new hypothesis.
  function WithProvisional(ts: Tokens, incoming: Tokens): Result {
    var newest := Sort(incoming, TokenKey);
    if exists t :: t in newest && t.interval.start < Frontier(ts) then TranscriptViolation
    else Ok(Sort(FinalTokens(ts) + newest, TokenKey))
  }

  function Promote(t: WordToken, boundary: nat): WordToken {
    if t.interval.end <= boundary then t.Finalize() else t
  }

  function PromoteAll(ts: Tokens, boundary: nat): (r: Tokens)
    ensures |r| == |ts| && forall k :: 0 <= k < |ts| ==> r[k] == Promote(ts[k], boundary)
  {
    seq(|ts|, k requires 0 <= k < |ts| => Promote(ts[k], boundary))
  }

  function FinalizeThrough(ts: Tokens, boundary: nat): Result {
    if boundary < Frontier(ts) then TranscriptViolation else Ok(PromoteAll(ts, boundary))
  }

  // ----- what callers rely on -----

  ghost predicate Canonical(ts: Tokens) { Sorted(ts, TokenKey) }

  ghost predicate AllProvisional(ts: Tokens) { forall t :: t in ts ==> !t.isFinal }

  ghost predicate PositiveLength(ts: Tokens) { forall t :: t in ts ==> t.interval.start < t.interval.end }

  // The tokens the boundary would freeze.
  function Settled(ts: Tokens, boundary: int): Tokens { Filter(ts, (t: WordToken) => t.interval.end <= boundary) }

  function Finalized(ts: Tokens): (r: Tokens)
    ensures |r| == |ts| && forall k :: 0 <= k < |ts| ==> r[k] == ts[k].Finalize()
  {
    seq(|ts|, k requires 0 <= k < |ts| => ts[k].Finalize())
  }

  // ----- the rules, token by token -----

  // By start, then by end, then by text.
  lemma CanonicalMeans(ts: Tokens)
    ensures Canonical(ts) <==>
            forall i, j :: 0 <= i < j < |ts| ==>
              || ts[i].interval.start < ts[j].interval.start
              || (ts[i].interval.start == ts[j].interval.start
                  && (|| ts[i].interval.end < ts[j].interval.end
                      || (ts[i].interval.end == ts[j].interval.end && StringLeq(ts[i].id.text, ts[j].id.text))))
  {
    if Canonical(ts) {
      forall i, j | 0 <= i < j < |ts| ensures KeyLeq(TokenKey(ts[i]), TokenKey(ts[j])) { }
    }
  }

  // A hypothesis is refused exactly when one of its tokens starts before a final
  // one ends.
  lemma RefusedExactly(ts: Tokens, incoming: Tokens)
    ensures WithProvisional(ts, incoming).TranscriptViolation? <==>
            exists t, f :: t in incoming && f in ts && f.isFinal && t.interval.start < f.interval.end
  {
    SortKeepsElements(incoming, TokenKey);
    var finals := FinalTokens(ts);
    assert forall f :: f in finals <==> f in ts && IsFinal(f);
    if finals != [] {
      var end := LatestEnd(finals);
      var f :| f in finals && f.interval.end == end;
    }
  }

  // What is accepted is the final tokens and the hypothesis, in canonical order.
  lemma AcceptedIs(ts: Tokens, incoming: Tokens)
    requires WithProvisional(ts, incoming).Ok?
    ensures var r := WithProvisional(ts, incoming).tokens;
            Canonical(r) && multiset(r) == multiset(Filter(ts, (t: WordToken) => t.isFinal)) + multiset(incoming)
  {
    SortKeepsElements(incoming, TokenKey);
    var all := FinalTokens(ts) + Sort(incoming, TokenKey);
    SortKeepsElements(all, TokenKey);
    SortIsSorted(all, TokenKey);
    SameFilter(ts, IsFinal, (t: WordToken) => t.isFinal);
  }

  // ----- promotion -----

  // The final tokens after a promotion: those that were final, or ended in time.
  predicate FinalAfter(boundary: int, t: WordToken) { t.isFinal || t.interval.end <= boundary }

  lemma {:induction false} PromotionFinals(ts: Tokens, boundary: nat, p: WordToken -> bool)
    requires forall t :: p(t) <==> FinalAfter(boundary, t)
    ensures FinalTokens(PromoteAll(ts, boundary)) == Finalized(Filter(ts, p))
  {
    if ts != [] {
      PromotionFinals(ts[1..], boundary, p);
      assert PromoteAll(ts, boundary)[1..] == PromoteAll(ts[1..], boundary);
      if p(ts[0]) {
        assert ([ts[0]] + Filter(ts[1..], p))[1..] == Filter(ts[1..], p);
        assert Finalized([ts[0]] + Filter(ts[1..], p)) == [ts[0].Finalize()] + Finalized(Filter(ts[1..], p));
      }
    }
  }

  lemma PromotionKeepsOrder(ts: Tokens, boundary: nat)
    requires Canonical(ts)
    ensures Canonical(PromoteAll(ts, boundary))
  {
    forall i, j | 0 <= i < j < |ts|
      ensures KeyLeq(TokenKey(PromoteAll(ts, boundary)[i]), TokenKey(PromoteAll(ts, boundary)[j]))
    {
      assert KeyLeq(TokenKey(ts[i]), TokenKey(ts[j]));
    }
  }

  // ----- replacing the tail -----

  // With positive-length tokens the accepted hypothesis goes after everything final.
  lemma ProvisionalShape(ts: Tokens, incoming: Tokens)
    requires Canonical(ts) && PositiveLength(FinalTokens(ts)) && WithProvisional(ts, incoming).Ok?
    ensures WithProvisional(ts, incoming).tokens == FinalTokens(ts) + Sort(incoming, TokenKey)
  {
    var kept, newest := FinalTokens(ts), Sort(incoming, TokenKey);
    FilterSorted(ts, TokenKey, IsFinal);
    SortIsSorted(incoming, TokenKey);
    SortedIsFixed(newest, TokenKey);
    forall x, y | x in kept && y in newest ensures KeyLeq(TokenKey(x), TokenKey(y)) {
      assert x.interval.start < x.interval.end <= Frontier(ts) <= y.interval.start;
    }
    SortAppend(kept, newest, TokenKey);
  }

  // ----- one reconciliation: a new hypothesis, then a stable boundary -----

  // What the coordinator does to the transcript for one window.
  function Reconcile(ts: Tokens, incoming: Tokens, stable: int): Result {
    match WithProvisional(ts, incoming)
    case TranscriptViolation => TranscriptViolation
    case Ok(next) => if stable <= Frontier(next) then Ok(next) else FinalizeThrough(next, stable)
  }

  // The two steps disagree about nothing the second could refuse: once the
  // hypothesis is accepted, the boundary is never behind the frontier.
  lemma ReconcileNeverMovesBackwards(ts: Tokens, incoming: Tokens, stable: int)
    ensures Reconcile(ts, incoming, stable).TranscriptViolation? <==> WithProvisional(ts, incoming).TranscriptViolation?
  {
  }

  lemma ProvisionalKeepsFinals(ts: Tokens, incoming: Tokens)
    requires Canonical(ts) && AllProvisional(incoming) && WithProvisional(ts, incoming).Ok?
    ensures var next := WithProvisional(ts, incoming).tokens;
            Canonical(next) && FinalTokens(next) == FinalTokens(ts) && Frontier(next) == Frontier(ts)
  {
    var kept, newest := FinalTokens(ts), Sort(incoming, TokenKey);
    SortIsSorted(kept + newest, TokenKey);
    FilterSort(kept + newest, TokenKey, IsFinal);
    FilterAppend(kept, newest, IsFinal);
    FilterAll(kept, IsFinal);
    SortKeepsElements(incoming, TokenKey);
    FilterNone(newest, IsFinal);
    FilterSorted(ts, TokenKey, IsFinal);
    SortedIsFixed(kept, TokenKey);
    assert kept + [] == kept;
  }

  // The final tokens one reconciliation leaves, without any assumption on lengths.
  lemma FinalsAfterReconcile(ts: Tokens, incoming: Tokens, stable: int, p: WordToken -> bool)
    requires Canonical(ts) && AllProvisional(incoming) && Reconcile(ts, incoming, stable).Ok?
    requires stable > Frontier(ts)
    requires forall t :: p(t) <==> FinalAfter(stable, t)
    ensures FinalTokens(Reconcile(ts, incoming, stable).tokens) ==
            Finalized(Sort(FinalTokens(ts) + Filter(Sort(incoming, TokenKey), p), TokenKey))
  {
    var kept, newest := FinalTokens(ts), Sort(incoming, TokenKey);
    ProvisionalKeepsFinals(ts, incoming);
    PromotionFinals(Sort(kept + newest, TokenKey), stable, p);
    FilterSort(kept + newest, TokenKey, p);
    FilterAppend(kept, newest, p);
    FilterAll(kept, p);
  }

  // ----- finalized history only grows at the end -----

  lemma LatestEndGrows(a: Tokens, b: Tokens)
    ensures LatestEnd(a) <= LatestEnd(a + b)
  {
    if a != [] {
      var ms := LatestEnd(a);
      var t :| t in a && t.interval.end == ms;
      assert t in a + b;
    }
  }

  // What a promotion adds to the final tokens of final tokens followed by a tail.
  lemma PromotedTail(kept: Tokens, tail: Tokens, stable: nat)
    requires AllProvisional(tail) && forall t :: t in kept ==> t.isFinal
    ensures FinalTokens(PromoteAll(kept + tail, stable)) == kept + Finalized(Settled(tail, stable))
  {
    hide Filter;
    var p := (t: WordToken) => FinalAfter(stable, t);
    PromotionFinals(kept + tail, stable, p);
    FilterAppend(kept, tail, p);
    FilterAll(kept, p);
    SameFilter(tail, p, (t: WordToken) => t.interval.end <= stable);
    var settled := Settled(tail, stable);
    assert forall k :: 0 <= k < |kept| ==> kept[k] in kept && kept[k].Finalize() == kept[k];
    assert Finalized(kept + settled) == kept + Finalized(settled);
  }

  // The new final tokens come after the old ones, and the frontier never retreats.
  lemma HistoryGrows(ts: Tokens, incoming: Tokens, stable: int)
    requires Canonical(ts) && PositiveLength(FinalTokens(ts)) && AllProvisional(incoming)
    requires Reconcile(ts, incoming, stable).Ok?
    ensures var next := Reconcile(ts, incoming, stable).tokens;
            && Canonical(next)
            && FinalTokens(next) == FinalTokens(ts) +
                 (if stable <= Frontier(ts) then [] else Finalized(Settled(Sort(incoming, TokenKey), stable)))
            && Frontier(ts) <= Frontier(next)
  {
    ProvisionalKeepsFinals(ts, incoming);
    if stable > Frontier(ts) {
      ProvisionalShape(ts, incoming);
      SortKeepsElements(incoming, TokenKey);
      PromotionKeepsOrder(WithProvisional(ts, incoming).tokens, stable);
      PromotedTail(FinalTokens(ts), Sort(incoming, TokenKey), stable);
      LatestEndGrows(FinalTokens(ts), Finalized(Settled(Sort(incoming, TokenKey), stable)));
    } else {
      assert FinalTokens(ts) + [] == FinalTokens(ts);
    }
  }

  lemma GrowthKeepsPositiveLength(ts: Tokens, incoming: Tokens, stable: int)
    requires Canonical(ts) && PositiveLength(FinalTokens(ts)) && AllProvisional(incoming) && PositiveLength(incoming)
    requires Reconcile(ts, incoming, stable).Ok?
    ensures PositiveLength(FinalTokens(Reconcile(ts, incoming, stable).tokens))
  {
    HistoryGrows(ts, incoming, stable);
    SortKeepsElements(incoming, TokenKey);
    var settled := Settled(Sort(incoming, TokenKey), stable);
    forall t | t in Finalized(settled) ensures t.interval.start < t.interval.end {
      var k :| 0 <= k < |settled| && Finalized(settled)[k] == t;
      assert settled[k] in incoming;
    }
  }

  // ----- empty tokens: exactly when the history grows at the end -----

  // Without an assumption on lengths, the old final tokens stay in front exactly
  // when no token being frozen sorts before the last of them.
  lemma HistoryGrowsExactly(ts: Tokens, incoming: Tokens, stable: int)
    requires Canonical(ts) && AllProvisional(incoming) && Reconcile(ts, incoming, stable).Ok?
    requires stable > Frontier(ts) && FinalTokens(ts) != []
    ensures FinalTokens(ts) <= FinalTokens(Reconcile(ts, incoming, stable).tokens) <==>
            forall f :: f in incoming && f.interval.end <= stable ==>
              KeyLeq(TokenKey(FinalTokens(ts)[|FinalTokens(ts)| - 1]), TokenKey(f))
  {
    var p := (t: WordToken) => FinalAfter(stable, t);
    var kept, frozen := FinalTokens(ts), Filter(Sort(incoming, TokenKey), p);
    FinalsAfterReconcile(ts, incoming, stable, p);
    SortKeepsElements(incoming, TokenKey);
    FilterSorted(ts, TokenKey, IsFinal);
    FrontedExactly(kept, frozen);
    assert forall f :: f in frozen <==> f in incoming && f.interval.end <= stable;
  }

  lemma FrontedExactly(kept: Tokens, frozen: Tokens)
    requires Canonical(kept) && kept != [] && forall t :: t in kept ==> t.isFinal
    ensures kept <= Finalized(Sort(kept + frozen, TokenKey)) <==>
            forall f :: f in frozen ==> KeyLeq(TokenKey(kept[|kept| - 1]), TokenKey(f))
  {
    var last := kept[|kept| - 1];
    if forall f :: f in frozen ==> KeyLeq(TokenKey(last), TokenKey(f)) {
      forall x, y | x in kept && y in frozen ensures KeyLeq(TokenKey(x), TokenKey(y)) {
        KeyOrder(TokenKey(x), TokenKey(x), TokenKey(x));
        KeyOrder(TokenKey(x), TokenKey(last), TokenKey(y));
      }
      SortAppend(kept, frozen, TokenKey);
      assert forall k :: 0 <= k < |kept| ==> kept[k] in kept && kept[k].Finalize() == kept[k];
    }
    if kept <= Finalized(Sort(kept + frozen, TokenKey)) {
      forall f | f in frozen ensures KeyLeq(TokenKey(last), TokenKey(f)) {
        FrontedSortsLast(kept, frozen, f);
      }
    }
  }

  // If the old tokens are in front, everything else is behind the last of them.
  lemma FrontedSortsLast(kept: Tokens, frozen: Tokens, f: WordToken)
    requires kept != [] && (forall t :: t in kept ==> t.isFinal) && f in frozen
    requires kept <= Finalized(Sort(kept + frozen, TokenKey))
    ensures KeyLeq(TokenKey(kept[|kept| - 1]), TokenKey(f))
  {
    var sorted := Sort(kept + frozen, TokenKey);
    SortIsSorted(kept + frozen, TokenKey);
    SortKeepsElements(kept + frozen, TokenKey);
    assert Finalized(kept + frozen) == kept + Finalized(frozen) by {
      assert forall k :: 0 <= k < |kept| ==> kept[k] in kept && kept[k].Finalize() == kept[k];
    }
    FinalizedPermutes(sorted, kept + frozen);
    var j :| 0 <= j < |frozen| && frozen[j] == f;
    assert Finalized(frozen)[j] == f.Finalize();
    var i := BehindFront(Finalized(sorted), kept, Finalized(frozen), f.Finalize());
    assert TokenKey(sorted[|kept| - 1]) == TokenKey(Finalized(sorted)[|kept| - 1]) == TokenKey(kept[|kept| - 1]);
    assert TokenKey(sorted[i]) == TokenKey(Finalized(sorted)[i]) == TokenKey(f);
  }

  lemma BehindFront<T>(all: seq<T>, front: seq<T>, rest: seq<T>, x: T) returns (i: nat)
    requires front <= all && multiset(all) == multiset(front + rest) && x in rest
    ensures |front| <= i < |all| && all[i] == x
  {
    var tail := all[|front|..];
    assert all == front + tail;
    assert multiset(front + tail) == multiset(front) + multiset(tail);
    assert multiset(front + rest) == multiset(front) + multiset(rest);
    assert multiset(tail) == multiset(all) - multiset(front) == multiset(rest);
    assert x in multiset(tail);
    var k :| 0 <= k < |tail| && tail[k] == x;
    i := |front| + k;
  }

  function Frozen(t: WordToken): WordToken { t.Finalize() }

  lemma FinalizedPermutes(a: Tokens, b: Tokens)
    requires multiset(a) == multiset(b)
    ensures multiset(Finalized(a)) == multiset(Finalized(b))
  {
    MapPermutes(a, b, Frozen);
    assert Finalized(a) == Map(a, Frozen) && Finalized(b) == Map(b, Frozen);
  }

  function EmptyToken(text: string, isFinal: bool): WordToken {
    WordToken(TokenId("run", 0, text), text, IntervalOf(5, 5), Confidence(1.0, true), isFinal)
  }

  // An empty token can slip in front of one that was final before it.
  lemma EmptyTokensCanRewriteHistory()
    ensures var ts, incoming := [EmptyToken("b", true)], [EmptyToken("a", false)];
            && Canonical(ts) && AllProvisional(incoming) && Reconcile(ts, incoming, 6).Ok?
            && !(FinalTokens(ts) <= FinalTokens(Reconcile(ts, incoming, 6).tokens))
  {
    var ts, incoming := [EmptyToken("b", true)], [EmptyToken("a", false)];
    assert FinalTokens(ts) == ts by { FilterAll(ts, IsFinal); }
    assert Frontier(ts) == 5;
    SortedIsFixed(incoming, TokenKey);
    assert WithProvisional(ts, incoming).Ok?;
    HistoryGrowsExactly(ts, incoming, 6);
    assert incoming[0] in incoming;
    assert !StringLeq("b", "a");
    assert !KeyLeq(TokenKey(ts[0]), TokenKey(incoming[0]));
  }
}
