// The evidence ledger: append-only, revisable only while provisional.
module EvidenceLedger {
  import opened Taxonomy
  import opened Timeline
  import opened EventIdentity

  datatype Modality = Audio | Video

  datatype Provenance = Provenance(modality: Modality, modelVersion: string)

  datatype Payload = Payload(kind: SpeechEventType, rawText: string)

  datatype Entry = Entry(
    id: EventId, revision: nat, interval: Interval, provenance: Provenance, isFinal: bool, payload: Payload)

  type History = map<EventId, seq<Entry>>

  datatype Outcome = Recorded(entry: Entry) | AlreadyInLedger | NotInLedger | AlreadyFinal

  datatype Op =
    | Append(id: EventId, interval: Interval, provenance: Provenance, isFinal: bool, payload: Payload)
    | Revise(id: EventId, interval: Interval, provenance: Provenance, isFinal: bool, payload: Payload)
    | Finalize(id: EventId)

  // Every entry has versions, numbered from zero under its own id, and only
  // the last of them may be final.
  ghost predicate WellFormed(h: History) {
    forall id :: id in h ==> Versions(id, h[id])
  }

  ghost predicate Versions(id: EventId, vs: seq<Entry>) {
    && vs != []
    && (forall k :: 0 <= k < |vs| ==> vs[k].id == id && vs[k].revision == k)
    && (forall k :: 0 <= k < |vs| - 1 ==> !vs[k].isFinal)
  }

  function Last(vs: seq<Entry>): Entry
    requires vs != []
  {
    vs[|vs| - 1]
  }

  predicate NonEmpty(h: History) { forall id :: id in h ==> h[id] != [] }

  // What the operation reports, and the history it leaves.
  function Perform(h: History, op: Op): (History, Outcome)
    requires NonEmpty(h)
  {
    match op
    case Append(id, interval, provenance, isFinal, payload) =>
      if id in h then (h, AlreadyInLedger)
      else
        var entry := Entry(id, 0, interval, provenance, isFinal, payload);
        (h[id := [entry]], Recorded(entry))
    case Revise(id, interval, provenance, isFinal, payload) =>
      if id !in h then (h, NotInLedger)
      else if Last(h[id]).isFinal then (h, AlreadyFinal)
      else
        var entry := Entry(id, Last(h[id]).revision + 1, interval, provenance, isFinal, payload);
        (h[id := h[id] + [entry]], Recorded(entry))
    case Finalize(id) =>
      if id !in h then (h, NotInLedger)
      else if Last(h[id]).isFinal then (h, Recorded(Last(h[id])))
      else
        var now := Last(h[id]);
        var entry := Entry(id, now.revision + 1, now.interval, now.provenance, true, now.payload);
        (h[id := h[id] + [entry]], Recorded(entry))
  }

  class Ledger {
    const run: string
    var history: History

    constructor (run: string)
      ensures this.run == run && history == map[]
    {
      this.run := run;
      history := map[];
    }

    method Append(id: EventId, interval: Interval, provenance: Provenance, isFinal: bool, payload: Payload)
      returns (outcome: Outcome)
      requires NonEmpty(history)
      modifies this
      ensures NonEmpty(history)
      ensures (history, outcome) == Perform(old(history), Op.Append(id, interval, provenance, isFinal, payload))
    {
      if id in history {
        return AlreadyInLedger;
      }
      var entry := Entry(id, 0, interval, provenance, isFinal, payload);
      history := history[id := [entry]];
      return Recorded(entry);
    }

    method Revise(id: EventId, interval: Interval, provenance: Provenance, isFinal: bool, payload: Payload)
      returns (outcome: Outcome)
      requires NonEmpty(history)
      modifies this
      ensures NonEmpty(history)
      ensures (history, outcome) == Perform(old(history), Op.Revise(id, interval, provenance, isFinal, payload))
    {
      if id !in history {
        return NotInLedger;
      }
      var versions := history[id];
      var current := versions[|versions| - 1];
      if current.isFinal {
        return AlreadyFinal;
      }
      var entry := Entry(id, current.revision + 1, interval, provenance, isFinal, payload);
      history := history[id := versions + [entry]];
      return Recorded(entry);
    }

    method Finalize(id: EventId) returns (outcome: Outcome)
      requires NonEmpty(history)
      modifies this
      ensures NonEmpty(history)
      ensures (history, outcome) == Perform(old(history), Op.Finalize(id))
    {
      if id !in history {
        return NotInLedger;
      }
      var versions := history[id];
      var current := versions[|versions| - 1];
      if current.isFinal {
        return Recorded(current);
      }
      var entry := Entry(id, current.revision + 1, current.interval, current.provenance, true, current.payload);
      history := history[id := versions + [entry]];
      return Recorded(entry);
    }
  }

  // ----- what no operation can do -----

  // h' keeps every version h had, in place, and everything h had made final.
  ghost predicate Extends(h: History, h': History) {
    forall id :: id in h ==>
      && id in h' && h[id] <= h'[id]
      && (h[id] != [] && Last(h[id]).isFinal ==> h'[id] == h[id])
  }

  lemma PerformKeepsHistory(h: History, op: Op)
    requires WellFormed(h)
    ensures WellFormed(Perform(h, op).0)
    ensures Extends(h, Perform(h, op).0)
    ensures forall id :: id != op.id ==> (id in h <==> id in Perform(h, op).0)
    ensures Perform(h, op).1.Recorded? ==>
              op.id in Perform(h, op).0 && Perform(h, op).1.entry == Last(Perform(h, op).0[op.id])
  {
    var h' := Perform(h, op).0;
    if h' != h {
      var vs := if op.id in h then h[op.id] else [];
      assert op.id in h ==> Versions(op.id, vs) && !Last(vs).isFinal;
      OneMoreVersion(h, op.id, vs, Last(h'[op.id]));
    }
  }

  // The version an operation records, by what it was given and what was there.
  lemma PerformRecords(h: History, op: Op)
    requires WellFormed(h)
    ensures var (h', outcome) := Perform(h, op);
            var known, final := op.id in h, op.id in h && Last(h[op.id]).isFinal;
            match op
            case Append(id, interval, provenance, isFinal, payload) =>
              && (known ==> outcome == AlreadyInLedger && h' == h)
              && (!known ==> outcome == Recorded(Entry(id, 0, interval, provenance, isFinal, payload)) && h' == h[id := [outcome.entry]])
            case Revise(id, interval, provenance, isFinal, payload) =>
              && (!known ==> outcome == NotInLedger && h' == h)
              && (final ==> outcome == AlreadyFinal && h' == h)
              && (known && !final ==>
                    && outcome == Recorded(Entry(id, |h[id]|, interval, provenance, isFinal, payload))
                    && h' == h[id := h[id] + [outcome.entry]])
            case Finalize(id) =>
              && (!known ==> outcome == NotInLedger && h' == h)
              && (final ==> outcome == Recorded(h[id][|h[id]| - 1]) && h' == h)
              && (known && !final ==>
                    && outcome == Recorded(h[id][|h[id]| - 1].(revision := |h[id]|, isFinal := true))
                    && h' == h[id := h[id] + [outcome.entry]])
  {
    if op.id in h { assert Versions(op.id, h[op.id]); }
  }

  // A version added to an event that has no final one.
  lemma OneMoreVersion(h: History, id: EventId, vs: seq<Entry>, entry: Entry)
    requires WellFormed(h) && vs == (if id in h then h[id] else [])
    requires vs != [] ==> !Last(vs).isFinal
    requires entry.id == id && entry.revision == |vs|
    ensures WellFormed(h[id := vs + [entry]]) && Extends(h, h[id := vs + [entry]])
  {
    assert id in h ==> Versions(id, vs);
    assert Versions(id, vs + [entry]);
  }

  lemma ExtendsTransitive(a: History, b: History, c: History)
    requires Extends(a, b) && Extends(b, c)
    ensures Extends(a, c)
  {
    forall id | id in a
      ensures id in c && a[id] <= c[id] && (a[id] != [] && Last(a[id]).isFinal ==> c[id] == a[id])
    {
      assert a[id] <= b[id] <= c[id];
    }
  }

  function PerformAll(h: History, ops: seq<Op>): (h': History)
    requires NonEmpty(h)
    ensures NonEmpty(h')
  {
    if ops == [] then h else Perform(PerformAll(h, ops[..|ops| - 1]), ops[|ops| - 1]).0
  }

  // Over any sequence of operations: revisions are 0..k with only the last
  // final, nothing recorded at any point is lost or changed, and whatever was
  // final at any point is the same from then on.
  lemma {:induction false} HistoryIsImmutable(ops: seq<Op>, n: nat)
    requires n <= |ops|
    ensures WellFormed(PerformAll(map[], ops))
    ensures Extends(PerformAll(map[], ops[..n]), PerformAll(map[], ops))
    decreases |ops|
  {
    if n == |ops| {
      assert ops[..n] == ops;
      if ops != [] {
        HistoryIsImmutable(ops[..|ops| - 1], |ops| - 1);
        PerformKeepsHistory(PerformAll(map[], ops[..|ops| - 1]), ops[|ops| - 1]);
      }
    } else {
      var before := ops[..|ops| - 1];
      HistoryIsImmutable(before, n);
      assert before[..n] == ops[..n];
      var h := PerformAll(map[], before);
      PerformKeepsHistory(h, ops[|ops| - 1]);
      ExtendsTransitive(PerformAll(map[], ops[..n]), h, PerformAll(map[], ops));
    }
  }
}
