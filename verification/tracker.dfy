/** The active-section tracker: each batch of intersection reports is merged
    into a persistent id -> latest-report mapping, and the active id is then
    chosen among the ids whose latest report says the heading is in view. */
module Tracker {

  import opened Options

  /** One intersection report: the heading element's id and whether the
      element is inside the observed band of the viewport. */
  datatype Report = Report(id: string, isIntersecting: bool)

  /** The persistent mapping from heading id to the intersection flag of its
      latest report. */
  type Records = map<string, bool>

  /** The tracker's state: the persistent mapping and the active id, which
      stays undefined until some heading has been seen in view. */
  datatype State = State(records: Records, activeId: Option<string>)

  function Initial(): State
  {
    State(map[], None)
  }

  /** The ids a batch reports on. */
  function IdsOf(batch: seq<Report>): set<string>
  {
    set k | 0 <= k < |batch| :: batch[k].id
  }

  /** Report `k` is the last one in the batch for its id. */
  predicate IsLastFor(batch: seq<Report>, k: int)
    requires 0 <= k < |batch|
  {
    forall m :: k < m < |batch| ==> batch[m].id != batch[k].id
  }

  /** Folds a batch into the mapping, report by report: every reported id
      ends up mapped to its last report in the batch and every other id keeps
      its entry. */
  function Merge(records: Records, batch: seq<Report>): (r: Records)
    ensures r.Keys == records.Keys + IdsOf(batch)
    ensures forall k :: 0 <= k < |batch| && IsLastFor(batch, k) ==> r[batch[k].id] == batch[k].isIntersecting
    ensures forall id :: id in records && id !in IdsOf(batch) ==> r[id] == records[id]
    decreases |batch|
  {
    if batch == [] then records
    else
      var rest := batch[1..];
      assert IdsOf(batch) == {batch[0].id} + IdsOf(rest) by {
        forall id | id in IdsOf(batch) ensures id in {batch[0].id} + IdsOf(rest) {
          var k :| 0 <= k < |batch| && batch[k].id == id;
          if k > 0 {
            assert rest[k - 1].id == id;
          }
        }
        forall id | id in IdsOf(rest) ensures id in IdsOf(batch) {
          var k :| 0 <= k < |rest| && rest[k].id == id;
          assert batch[k + 1].id == id;
        }
      }
      assert forall k :: 0 < k < |batch| && IsLastFor(batch, k) ==> IsLastFor(rest, k - 1);
      assert IsLastFor(batch, 0) ==> batch[0].id !in IdsOf(rest);
      Merge(records[batch[0].id := batch[0].isIntersecting], rest)
  }

  /** Every reported id has a last report in the batch. */
  lemma {:induction false} LastReportExists(batch: seq<Report>, id: string)
    requires id in IdsOf(batch)
    ensures exists k :: 0 <= k < |batch| && batch[k].id == id && IsLastFor(batch, k)
    decreases |batch|
  {
    var n := |batch|;
    if batch[n - 1].id != id {
      var front := batch[..n - 1];
      var j :| 0 <= j < n && batch[j].id == id;
      assert front[j].id == id;
      LastReportExists(front, id);
      var k :| 0 <= k < |front| && front[k].id == id && IsLastFor(front, k);
      assert batch[k].id == id && IsLastFor(batch, k);
    }
  }

  /** Merging the same batch twice leaves the mapping as one merge does. */
  lemma MergeIdempotent(records: Records, batch: seq<Report>)
    ensures Merge(Merge(records, batch), batch) == Merge(records, batch)
  {
    var once := Merge(records, batch);
    var twice := Merge(once, batch);
    forall id | id in twice
      ensures twice[id] == once[id]
    {
      if id in IdsOf(batch) {
        LastReportExists(batch, id);
      }
    }
  }

  /** Merging two batches in turn is merging their concatenation: how the
      reports are split into batches does not matter to the mapping. */
  lemma {:induction false} MergeConcat(records: Records, b1: seq<Report>, b2: seq<Report>)
    ensures Merge(Merge(records, b1), b2) == Merge(records, b1 + b2)
    decreases |b1|
  {
    if b1 == [] {
      assert b1 + b2 == b2;
    } else {
      assert (b1 + b2)[0] == b1[0];
      assert (b1 + b2)[1..] == b1[1..] + b2;
      MergeConcat(records[b1[0].id := b1[0].isIntersecting], b1[1..], b2);
    }
  }

  /** The ids whose latest report says the heading is in view. */
  function Visible(records: Records): set<string>
  {
    set id | id in records && records[id]
  }

  lemma SingletonMembers(s: set<string>)
    requires |s| == 1
    ensures forall x :: x in s ==> s == {x}
  {
    forall x | x in s
      ensures s == {x}
    {
      assert |s - {x}| == 0;
    }
  }

  /** The only member of a one-element set. */
  function Only(s: set<string>): (x: string)
    requires |s| == 1
    ensures s == {x}
  {
    SingletonMembers(s);
    var x :| x in s;
    x
  }

  /** The engine's choice among several visible ids: `Object.keys`
      enumeration followed by `Array.prototype.sort` with the boolean
      comparator, then the first element. Whatever it is, it returns a member
      of any non-empty set it is given. */
  ghost predicate PickSound(pick: set<string> -> string)
  {
    forall s: set<string> :: s != {} ==> pick(s) in s
  }

  /** The choice of the callback: no visible id leaves the active id as it
      is, a single visible id becomes active, and among several the engine's
      pick does. */
  function NextActive(records: Records, activeId: Option<string>, pick: set<string> -> string): (r: Option<string>)
    requires PickSound(pick)
    ensures Visible(records) == {} ==> r == activeId
    ensures |Visible(records)| == 1 ==> r.Some? && Visible(records) == {r.value}
    ensures |Visible(records)| > 1 ==> r.Some? && r.value in Visible(records)
  {
    var visible := Visible(records);
    if |visible| == 0 then activeId
    else if |visible| == 1 then Some(Only(visible))
    else Some(pick(visible))
  }

  /** One invocation of the intersection callback. */
  function Step(st: State, batch: seq<Report>, pick: set<string> -> string): (r: State)
    requires PickSound(pick)
    ensures r.records.Keys == st.records.Keys + IdsOf(batch)
    ensures Visible(r.records) == {} ==> r.activeId == st.activeId
    ensures Visible(r.records) != {} ==> r.activeId.Some? && r.activeId.value in Visible(r.records)
  {
    var records := Merge(st.records, batch);
    State(records, NextActive(records, st.activeId, pick))
  }

  /** A run of callback invocations, one batch and one engine pick per call. */
  function Run(st: State, batches: seq<seq<Report>>, picks: seq<set<string> -> string>): State
    requires |picks| == |batches|
    requires forall k :: 0 <= k < |picks| ==> PickSound(picks[k])
    decreases |batches|
  {
    if batches == [] then st
    else Run(Step(st, batches[0], picks[0]), batches[1..], picks[1..])
  }

  /** Some batch of the history reported `id` in view. */
  ghost predicate ReportedVisible(history: seq<seq<Report>>, id: string)
  {
    exists b, k :: 0 <= b < |history| && 0 <= k < |history[b]| && history[b][k] == Report(id, true)
  }

  /** Every id the state holds as visible, and the active id, were reported
      in view by some batch of the history. */
  ghost predicate Grounded(st: State, history: seq<seq<Report>>)
  {
    && (forall id :: id in st.records && st.records[id] ==> ReportedVisible(history, id))
    && (st.activeId.Some? ==> ReportedVisible(history, st.activeId.value))
  }

  lemma ReportedVisibleGrows(history: seq<seq<Report>>, more: seq<seq<Report>>, id: string)
    requires ReportedVisible(history, id)
    ensures ReportedVisible(history + more, id)
  {
    var b, k :| 0 <= b < |history| && 0 <= k < |history[b]| && history[b][k] == Report(id, true);
    assert (history + more)[b] == history[b];
  }

  lemma StepGrounded(st: State, history: seq<seq<Report>>, batch: seq<Report>, pick: set<string> -> string)
    requires PickSound(pick) && Grounded(st, history)
    ensures Grounded(Step(st, batch, pick), history + [batch])
  {
    var next := Step(st, batch, pick);
    var h := history + [batch];
    assert h[|history|] == batch;
    forall id | id in next.records && next.records[id]
      ensures ReportedVisible(h, id)
    {
      if id in IdsOf(batch) {
        LastReportExists(batch, id);
        var k :| 0 <= k < |batch| && batch[k].id == id && IsLastFor(batch, k);
        assert h[|history|][k] == Report(id, true);
      } else {
        ReportedVisibleGrows(history, [batch], id);
      }
    }
    if next.activeId.Some? && next.activeId == st.activeId {
      ReportedVisibleGrows(history, [batch], st.activeId.value);
    }
  }

  /** A non-empty run is its first step followed by the rest of the run. */
  lemma RunUnfold(st: State, batches: seq<seq<Report>>, picks: seq<set<string> -> string>)
    requires |picks| == |batches| > 0
    requires forall k :: 0 <= k < |picks| ==> PickSound(picks[k])
    ensures forall k :: 0 <= k < |picks[1..]| ==> PickSound(picks[1..][k])
    ensures Run(st, batches, picks) == Run(Step(st, batches[0], picks[0]), batches[1..], picks[1..])
  {
    assert forall k :: 0 <= k < |picks[1..]| ==> picks[1..][k] == picks[k + 1];
  }

  /** Splitting off the first batch of a history changes nothing. */
  lemma GroundedRegroup(st: State, history: seq<seq<Report>>, batches: seq<seq<Report>>)
    requires batches != [] && Grounded(st, history + [batches[0]] + batches[1..])
    ensures Grounded(st, history + batches)
  {
    assert history + [batches[0]] + batches[1..] == history + batches;
  }

  lemma {:induction false} RunGrounded(st: State, history: seq<seq<Report>>, batches: seq<seq<Report>>,
                                       picks: seq<set<string> -> string>)
    requires |picks| == |batches|
    requires forall k :: 0 <= k < |picks| ==> PickSound(picks[k])
    requires Grounded(st, history)
    ensures Grounded(Run(st, batches, picks), history + batches)
    decreases |batches|
  {
    if batches == [] {
      assert history + batches == history;
    } else {
      RunUnfold(st, batches, picks);
      var next := Step(st, batches[0], picks[0]);
      var h := history + [batches[0]];
      StepGrounded(st, history, batches[0], picks[0]);
      RunGrounded(next, h, batches[1..], picks[1..]);
      GroundedRegroup(Run(next, batches[1..], picks[1..]), history, batches);
    }
  }

  /** Starting from nothing, the active id is only ever an id that some
      batch reported in view. */
  lemma ActiveIdWasReportedVisible(batches: seq<seq<Report>>, picks: seq<set<string> -> string>)
    requires |picks| == |batches|
    requires forall k :: 0 <= k < |picks| ==> PickSound(picks[k])
    ensures Run(Initial(), batches, picks).activeId.Some? ==>
              ReportedVisible(batches, Run(Initial(), batches, picks).activeId.value)
  {
    RunGrounded(Initial(), [], batches, picks);
    assert [] + batches == batches;
  }

  /** `findIndex` over the document's heading ids: the first position of
      `id`, or -1 when it is not there. */
  function IndexOf(doc: seq<string>, id: string): (r: int)
    ensures -1 <= r < |doc|
    ensures r >= 0 ==> doc[r] == id && forall m :: 0 <= m < r ==> doc[m] != id
    ensures r == -1 <==> id !in doc
    decreases |doc|
  {
    if doc == [] then -1
    else if doc[0] == id then 0
    else
      var r := IndexOf(doc[1..], id);
      if r == -1 then -1 else r + 1
  }

  /** The comparator handed to the sort, as the number the sort sees: `true`
      coerces to 1 and `false` to 0. It documents the finding below; the model
      does not sort, and the engine's resulting order is the `pick` parameter. */
  function BooleanComparator(doc: seq<string>, a: string, b: string): int
  {
    if IndexOf(doc, a) > IndexOf(doc, b) then 1 else 0
  }

  /** The comparator never answers negative, so it never asks the sort to put
      `a` before `b`: for an earlier `a` it answers 0, "equal", one way and 1,
      "after", the other, which no consistent comparator does. A sort that
      moves an element only on a negative answer keeps the enumeration order. */
  lemma BooleanComparatorInconsistent(doc: seq<string>, a: string, b: string)
    requires a in doc && b in doc && IndexOf(doc, a) < IndexOf(doc, b)
    ensures BooleanComparator(doc, a, b) == 0 && BooleanComparator(doc, b, a) == 1
    ensures forall x, y :: BooleanComparator(doc, x, y) >= 0
  {
  }

  /** Document headings `intro` then `2024`, both in view. `Object.keys` lists
      the integer-like key `"2024"` before `"intro"`, and a sort that never
      sees a negative answer leaves it first, so `2024` becomes active
      although `intro` comes earlier in the document. The pick below is that
      engine choice, and it is sound. */
  lemma TieBreakMayMissEarliest()
    ensures var doc := ["intro", "2024"];
            IndexOf(doc, "intro") < IndexOf(doc, "2024") &&
            exists pick :: PickSound(pick) && NextActive(map["intro" := true, "2024" := true], None, pick) == Some("2024")
  {
    var doc := ["intro", "2024"];
    assert IndexOf(doc, "intro") == 0;
    assert IndexOf(doc, "2024") == 1;
    var pick := (s: set<string>) => if "2024" in s || s == {} then "2024" else var x :| x in s; x;
    assert PickSound(pick);
    var records := map["intro" := true, "2024" := true];
    assert Visible(records) == {"intro", "2024"};
    assert |Visible(records)| == 2;
    assert NextActive(records, None, pick) == Some("2024");
  }

  /** The visible id that comes first in the document, if any visible id is
      a document heading. */
  function EarliestVisible(doc: seq<string>, visible: set<string>): (r: Option<string>)
    ensures r.Some? ==> r.value in visible && r.value in doc
    ensures r.Some? ==> forall y :: y in visible && y in doc ==> IndexOf(doc, r.value) <= IndexOf(doc, y)
    ensures r.None? ==> forall y :: y in visible ==> y !in doc
    decreases |doc|
  {
    if doc == [] then None
    else if doc[0] in visible then Some(doc[0])
    else EarliestVisible(doc[1..], visible)
  }

  /** The evidently intended choice: among several visible ids, the one that
      comes first in the document, falling back on the engine's pick only
      when no visible id is a document heading. */
  function NextActiveEarliest(records: Records, activeId: Option<string>, doc: seq<string>,
                              pick: set<string> -> string): (r: Option<string>)
    requires PickSound(pick)
    ensures Visible(records) == {} ==> r == activeId
    ensures Visible(records) != {} ==> r.Some? && r.value in Visible(records)
    ensures forall y :: y in Visible(records) && y in doc ==>
              r.Some? && r.value in doc && IndexOf(doc, r.value) <= IndexOf(doc, y)
  {
    var visible := Visible(records);
    if |visible| == 0 then activeId
    else
      match EarliestVisible(doc, visible)
      case Some(x) => Some(x)
      case None => Some(pick(visible))
  }

  /** The id the intended rule takes from a set of visible ids. */
  function ChooseEarliest(doc: seq<string>, pick: set<string> -> string, s: set<string>): (x: string)
    ensures PickSound(pick) && s != {} ==> x in s
  {
    match EarliestVisible(doc, s)
    case Some(x) => x
    case None => pick(s)
  }

  /** The engine pick that the intended rule amounts to. */
  function EarliestPick(doc: seq<string>, pick: set<string> -> string): (chosen: set<string> -> string)
    requires PickSound(pick)
    ensures PickSound(chosen)
  {
    var chosen := (s: set<string>) => ChooseEarliest(doc, pick, s);
    assert PickSound(chosen) by {
      forall s: set<string> | s != {}
        ensures chosen(s) in s
      {
        assert chosen(s) == ChooseEarliest(doc, pick, s);
      }
    }
    chosen
  }

  /** The intended rule is one of the behaviours the code allows: it is the
      code's choice under a particular engine pick. */
  lemma EarliestAllowedByCode(records: Records, activeId: Option<string>, doc: seq<string>,
                              pick: set<string> -> string)
    requires PickSound(pick)
    ensures PickSound(EarliestPick(doc, pick))
    ensures NextActiveEarliest(records, activeId, doc, pick) == NextActive(records, activeId, EarliestPick(doc, pick))
  {
  }

  /** One invocation of the callback under the intended rule. */
  function StepEarliest(st: State, batch: seq<Report>, doc: seq<string>, pick: set<string> -> string): (r: State)
    requires PickSound(pick)
    ensures r == Step(st, batch, EarliestPick(doc, pick))
  {
    var records := Merge(st.records, batch);
    EarliestAllowedByCode(records, st.activeId, doc, pick);
    State(records, NextActiveEarliest(records, st.activeId, doc, pick))
  }
}
