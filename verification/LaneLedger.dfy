/**
 The lane ledger of `lazy_coord.py` (`lanes.json`): which work item runs in which lane, how far it
 got, and in which order lanes were merged back.
 */
module LaneLedger {
  import opened Prelude

  datatype Status = Claimed | LaneComplete | Merged | Demoted | Parked

  /** One entry of `lanes`; a field the entry does not have is None. */
  datatype Lane = Lane(slot: Option<string>, branch: Option<string>, status: Option<Status>,
                       mergeIndex: Option<nat>, demotionReason: Option<string>,
                       sentinel: Option<string>, portedTo: Option<string>)

  const NO_LANE := Lane(None, None, None, None, None, None, None)

  /** `order` lists the keys of `lanes` as they were first inserted. */
  datatype Book = Book(lanes: map<string, Lane>, order: seq<string>, merges: seq<string>)

  const EMPTY_BOOK := Book(map[], [], [])

  function LaneOf(b: Book, id: string): Lane {
    if id in b.lanes then b.lanes[id] else NO_LANE
  }

  function Put(b: Book, id: string, lane: Lane): Book {
    Book(b.lanes[id := lane], if id in b.lanes then b.order else b.order + [id], b.merges)
  }

  // ---- the ledger steps ----

  datatype Step =
    | RecordClaim(id: string, slot: string, branch: string)
    | RecordComplete(id: string)
    | RecordMerge(id: string)
    | RecordDemotion(id: string, reason: string)
    | RecordPark(id: string, sentinel: string, portedTo: Option<string>)

  function Apply(b: Book, step: Step): Book {
    var lane := LaneOf(b, step.id);
    match step
    case RecordClaim(id, slot, branch) =>
      Put(b, id, NO_LANE.(slot := Some(slot), branch := Some(branch), status := Some(Claimed)))
    case RecordComplete(id) => Put(b, id, lane.(status := Some(LaneComplete)))
    case RecordMerge(id) =>
      Put(b, id, lane.(status := Some(Merged), mergeIndex := Some(|b.merges|))).(merges := b.merges + [id])
    case RecordDemotion(id, reason) =>
      Put(b, id, lane.(status := Some(Demoted), demotionReason := Some(reason)))
    case RecordPark(id, sentinel, portedTo) =>
      Put(b, id, lane.(status := Some(Parked), sentinel := Some(sentinel), portedTo := portedTo))
  }

  function Run(b: Book, steps: seq<Step>): Book
    decreases |steps|
  {
    if steps == [] then b else Run(Apply(b, steps[0]), steps[1..])
  }

  ghost predicate Keyed(b: Book) {
    Distinct(b.order) && forall id :: id in b.order <==> id in b.lanes
  }

  /** Merge indexes point at their own id, and merged lanes are in the merge order. */
  ghost predicate Indexed(b: Book) {
    forall id :: id in b.lanes ==>
      && b.lanes[id].status.Some?
      && (b.lanes[id].mergeIndex.Some? ==>
            b.lanes[id].mergeIndex.value < |b.merges| && b.merges[b.lanes[id].mergeIndex.value] == id)
      && (b.lanes[id].status == Some(Merged) ==> id in b.merges)
  }

  ghost predicate Inv(b: Book) {
    Keyed(b) && Indexed(b)
  }

  lemma StepKeepsKeys(b: Book, step: Step)
    requires Keyed(b)
    ensures Keyed(Apply(b, step))
  {
  }

  lemma StepKeepsIndexes(b: Book, step: Step)
    requires Indexed(b)
    ensures Indexed(Apply(b, step)) && b.merges <= Apply(b, step).merges
  {
  }

  /** In every run of ledger steps the invariant holds and the merge order only grows. */
  lemma {:induction false} RunKeepsInv(b: Book, steps: seq<Step>)
    requires Inv(b)
    ensures Inv(Run(b, steps)) && b.merges <= Run(b, steps).merges
    decreases |steps|
  {
    if steps != [] {
      StepKeepsKeys(b, steps[0]);
      StepKeepsIndexes(b, steps[0]);
      RunKeepsInv(Apply(b, steps[0]), steps[1..]);
    }
  }

  /** The fields of the entry a step leaves, one by one: a claim starts it afresh with its slot and branch;
      the other steps set their own fields and keep all else, of an entry there was.  No step touches another
      lane, and only a merge touches the merge order. */
  lemma StepSetsFields(b: Book, step: Step)
    ensures var b' := Apply(b, step);
            && step.id in b'.lanes
            && (forall other :: other != step.id ==>
                  (other in b'.lanes <==> other in b.lanes) && (other in b.lanes ==> b'.lanes[other] == b.lanes[other]))
            && b'.merges == (if step.RecordMerge? then b.merges + [step.id] else b.merges)
            && b'.order == (if step.id in b.lanes then b.order else b.order + [step.id])
            && var was := if step.id in b.lanes then b.lanes[step.id]
                          else Lane(None, None, None, None, None, None, None);
               b'.lanes[step.id] ==
               match step
               case RecordClaim(_, slot, branch) =>
                 Lane(Some(slot), Some(branch), Some(Claimed), None, None, None, None)
               case RecordComplete(_) =>
                 Lane(was.slot, was.branch, Some(LaneComplete), was.mergeIndex, was.demotionReason,
                      was.sentinel, was.portedTo)
               case RecordMerge(_) =>
                 Lane(was.slot, was.branch, Some(Merged), Some(|b.merges|), was.demotionReason,
                      was.sentinel, was.portedTo)
               case RecordDemotion(_, reason) =>
                 Lane(was.slot, was.branch, Some(Demoted), was.mergeIndex, Some(reason),
                      was.sentinel, was.portedTo)
               case RecordPark(_, sentinel, portedTo) =>
                 Lane(was.slot, was.branch, Some(Parked), was.mergeIndex, was.demotionReason,
                      Some(sentinel), portedTo)
  {
  }

  /** A lane keeps the slot and branch it was claimed with through every run without another claim of it. */
  lemma ClaimIsKept(b: Book, id: string, slot: string, branch: string, steps: seq<Step>)
    requires forall step :: step in steps && step.RecordClaim? ==> step.id != id
    ensures var now := Run(Apply(b, RecordClaim(id, slot, branch)), steps);
            id in now.lanes && now.lanes[id].slot == Some(slot) && now.lanes[id].branch == Some(branch)
  {
    PlaceIsKept(Apply(b, RecordClaim(id, slot, branch)), id, steps);
  }

  lemma {:induction false} PlaceIsKept(b: Book, id: string, steps: seq<Step>)
    requires id in b.lanes && forall step :: step in steps && step.RecordClaim? ==> step.id != id
    ensures var now := Run(b, steps);
            id in now.lanes && now.lanes[id].slot == b.lanes[id].slot && now.lanes[id].branch == b.lanes[id].branch
    decreases |steps|
  {
    if steps != [] {
      PlaceIsKept(Apply(b, steps[0]), id, steps[1..]);
    }
  }

  // ---- queue-order selection and the flush groups ----

  predicate Has(b: Book, id: string, statuses: set<Status>) {
    id in b.lanes && b.lanes[id].status.Some? && b.lanes[id].status.value in statuses
  }

  /** The ids of the list whose lane has one of the statuses, in list order. */
  function Pick(ids: seq<string>, b: Book, statuses: set<Status>): seq<string> {
    if ids == [] then []
    else (if Has(b, ids[0], statuses) then [ids[0]] else []) + Pick(ids[1..], b, statuses)
  }

  function MergeOrder(b: Book, queue: seq<string>): seq<string> {
    Pick(queue, b, {LaneComplete})
  }

  datatype Groups = Groups(merged: seq<string>, demoted: seq<string>, parked: seq<string>, claimed: seq<string>)

  function Flush(b: Book): Groups {
    Groups(Pick(b.merges, b, {Merged}), Pick(b.order, b, {Demoted}), Pick(b.order, b, {Parked}),
           Pick(b.order, b, {Claimed, LaneComplete}))
  }

  lemma {:induction false} PickAppend(ids: seq<string>, b: Book, statuses: set<Status>, id: string)
    ensures Pick(ids + [id], b, statuses) == Pick(ids, b, statuses) + if Has(b, id, statuses) then [id] else []
  {
    if ids != [] {
      PickAppend(ids[1..], b, statuses, id);
      assert (ids + [id])[1..] == ids[1..] + [id];
    } else {
      assert (ids + [id])[1..] == [];
    }
  }

  lemma {:induction false} PickCounts(ids: seq<string>, b: Book, statuses: set<Status>, id: string)
    ensures multiset(Pick(ids, b, statuses))[id] == if Has(b, id, statuses) then multiset(ids)[id] else 0
  {
    if ids != [] {
      PickCounts(ids[1..], b, statuses, id);
      assert ids == [ids[0]] + ids[1..];
    }
  }

  lemma {:induction false} DistinctCounts(ids: seq<string>, id: string)
    requires Distinct(ids)
    ensures multiset(ids)[id] == if id in ids then 1 else 0
  {
    if ids != [] {
      DistinctCounts(ids[1..], id);
      assert ids == [ids[0]] + ids[1..];
    }
  }

  lemma {:induction false} PickMembers(ids: seq<string>, b: Book, statuses: set<Status>)
    ensures forall id :: id in Pick(ids, b, statuses) <==> id in ids && Has(b, id, statuses)
    ensures Distinct(ids) ==> Distinct(Pick(ids, b, statuses))
  {
    if ids != [] {
      PickMembers(ids[1..], b, statuses);
    }
  }

  lemma FlushCounts(b: Book, id: string)
    ensures var f := Flush(b);
            && multiset(f.merged)[id] == (if Has(b, id, {Merged}) then multiset(b.merges)[id] else 0)
            && multiset(f.demoted)[id] == (if Has(b, id, {Demoted}) then multiset(b.order)[id] else 0)
            && multiset(f.parked)[id] == (if Has(b, id, {Parked}) then multiset(b.order)[id] else 0)
            && multiset(f.claimed)[id] == (if Has(b, id, {Claimed, LaneComplete}) then multiset(b.order)[id] else 0)
  {
    PickCounts(b.merges, b, {Merged}, id);
    PickCounts(b.order, b, {Demoted}, id);
    PickCounts(b.order, b, {Parked}, id);
    PickCounts(b.order, b, {Claimed, LaneComplete}, id);
  }

  /** How often the flush lists a lane: as often as it was merged if it is merged now, else once. */
  lemma FlushMultiplicity(b: Book, id: string)
    requires Inv(b)
    ensures Everything(Flush(b))[id]
            == if Has(b, id, {Merged}) then multiset(b.merges)[id] else if id in b.lanes then 1 else 0
  {
    FlushCounts(b, id);
    DistinctCounts(b.order, id);
    if id in b.lanes {
      match b.lanes[id].status.value {
        case Claimed => assert Has(b, id, {Claimed, LaneComplete});
        case LaneComplete => assert Has(b, id, {Claimed, LaneComplete});
        case _ =>
      }
    }
  }

  /** No lane is lost by the flush and none lands in two groups; the status decides. */
  lemma FlushCoversEveryLane(b: Book, id: string)
    requires Inv(b)
    ensures var f := Flush(b);
            && (id in f.merged <==> Has(b, id, {Merged}))
            && (id in f.demoted <==> Has(b, id, {Demoted}))
            && (id in f.parked <==> Has(b, id, {Parked}))
            && (id in f.claimed <==> Has(b, id, {Claimed, LaneComplete}))
            && (id in b.lanes <==> id in Everything(f))
  {
    PickMembers(b.merges, b, {Merged});
    PickMembers(b.order, b, {Demoted});
    PickMembers(b.order, b, {Parked});
    PickMembers(b.order, b, {Claimed, LaneComplete});
    FlushMultiplicity(b, id);
  }

  function Everything(f: Groups): multiset<string> {
    multiset(f.merged) + multiset(f.demoted) + multiset(f.parked) + multiset(f.claimed)
  }

  ghost predicate MergedOnce(b: Book) {
    forall id :: Has(b, id, {Merged}) ==> multiset(b.merges)[id] == 1
  }

  /** As lists, the groups are a permutation of the lanes exactly when no lane that is merged now was
      merged twice: a lane claimed and merged again is listed twice. */
  lemma FlushPermutesLanesIff(b: Book)
    requires Inv(b)
    ensures Everything(Flush(b)) == multiset(b.order) <==> MergedOnce(b)
  {
    hide Flush, Everything, Indexed;
    forall id
      ensures Everything(Flush(b))[id] == multiset(b.order)[id]
              <==> (Has(b, id, {Merged}) ==> multiset(b.merges)[id] == 1)
    {
      FlushMultiplicity(b, id);
      DistinctCounts(b.order, id);
    }
    if Everything(Flush(b)) == multiset(b.order) {
      forall id | Has(b, id, {Merged}) ensures multiset(b.merges)[id] == 1 {
        assert Everything(Flush(b))[id] == multiset(b.order)[id];
      }
    } else {
      var id :| Everything(Flush(b))[id] != multiset(b.order)[id];
      assert Has(b, id, {Merged}) && multiset(b.merges)[id] != 1;
    }
  }

  lemma MergedTwiceIsListedTwice(slot: string, branch: string)
    ensures var again := [RecordClaim("a", slot, branch), RecordMerge("a"), RecordClaim("a", slot, branch), RecordMerge("a")];
            Flush(Run(EMPTY_BOOK, again)).merged == ["a", "a"]
  {
    var b1 := Apply(EMPTY_BOOK, RecordClaim("a", slot, branch));
    var b2 := Apply(b1, RecordMerge("a"));
    var b3 := Apply(b2, RecordClaim("a", slot, branch));
    var b4 := Apply(b3, RecordMerge("a"));
    assert b4.merges == ["a", "a"] && Has(b4, "a", {Merged});
    assert Pick(b4.merges[1..], b4, {Merged}) == ["a"];
    var t := [RecordClaim("a", slot, branch), RecordMerge("a"), RecordClaim("a", slot, branch), RecordMerge("a")];
    assert Run(b3, t[3..]) == b4 && Run(b2, t[2..]) == b4 && Run(b1, t[1..]) == b4;
  }

  // ---- the merge wave ----

  datatype Outcome = Landed | Conflict(detail: string)

  /** What attempt `i` records for `id`. */
  function Recorded(id: string, outcome: Outcome): Step {
    match outcome
    case Landed => RecordMerge(id)
    case Conflict(detail) => RecordDemotion(id, detail)
  }

  /** The ledger after the first `n` attempts; attempt `i` is for `order[i]` and ends in `outcomes(i)`. */
  function Wave(b: Book, order: seq<string>, outcomes: nat -> Outcome, n: nat): Book
    requires n <= |order|
  {
    if n == 0 then b
    else Apply(Wave(b, order, outcomes, n - 1), Recorded(order[n - 1], outcomes(n - 1)))
  }

  /** The attempts among the first `n` that landed, or did not. */
  function Split(order: seq<string>, outcomes: nat -> Outcome, n: nat, landed: bool): seq<string>
    requires n <= |order|
  {
    if n == 0 then []
    else Split(order, outcomes, n - 1, landed)
         + (if outcomes(n - 1).Landed? == landed then [order[n - 1]] else [])
  }

  lemma {:induction false} InterleavesAppend<T>(all: seq<T>, a: seq<T>, b: seq<T>, x: T)
    requires Interleaves(all, a, b)
    ensures Interleaves(all + [x], a + [x], b) && Interleaves(all + [x], a, b + [x])
  {
    assert (all + [x])[1..] == if all == [] then [] else all[1..] + [x];
    if all == [] {
      assert a + [x] == [x] && b + [x] == [x];
    } else if a != [] && a[0] == all[0] && Interleaves(all[1..], a[1..], b) {
      InterleavesAppend(all[1..], a[1..], b, x);
      assert (a + [x])[1..] == a[1..] + [x];
    } else {
      InterleavesAppend(all[1..], a, b[1..], x);
      assert (b + [x])[1..] == b[1..] + [x];
    }
  }

  /** Merged and demoted split the attempted sequence. */
  lemma {:induction false} WaveSplitsAttempts(order: seq<string>, outcomes: nat -> Outcome, n: nat)
    requires n <= |order|
    ensures Interleaves(order[..n], Split(order, outcomes, n, true), Split(order, outcomes, n, false))
  {
    if n > 0 {
      WaveSplitsAttempts(order, outcomes, n - 1);
      assert order[..n] == order[..n - 1] + [order[n - 1]];
      InterleavesAppend(order[..n - 1], Split(order, outcomes, n - 1, true),
                        Split(order, outcomes, n - 1, false), order[n - 1]);
      var landed := outcomes(n - 1).Landed?;
      assert Split(order, outcomes, n, !landed) == Split(order, outcomes, n - 1, !landed);
      assert Split(order, outcomes, n, landed) == Split(order, outcomes, n - 1, landed) + [order[n - 1]];
    }
  }

  /** The merge order grows by exactly the merged list. */
  lemma {:induction false} WaveExtendsMergeOrder(b: Book, order: seq<string>, outcomes: nat -> Outcome, n: nat)
    requires n <= |order|
    ensures Wave(b, order, outcomes, n).merges == b.merges + Split(order, outcomes, n, true)
  {
    if n > 0 {
      WaveExtendsMergeOrder(b, order, outcomes, n - 1);
    }
  }

  lemma AttemptKeepsLane(b: Book, step: Step, id: string)
    requires id in b.lanes && (step.RecordMerge? || step.RecordDemotion?)
    ensures var b' := Apply(b, step);
            && id in b'.lanes
            && b'.lanes[id].branch == b.lanes[id].branch && b'.lanes[id].slot == b.lanes[id].slot
            && (if id == step.id then !Has(b', id, {LaneComplete}) else b'.lanes[id] == b.lanes[id])
  {
  }

  /** Every lane keeps its branch and slot - a demoted one too -, no attempted lane stays
      lane-complete, and the others are untouched. */
  lemma {:induction false} WaveKeepsLane(b: Book, order: seq<string>, outcomes: nat -> Outcome, n: nat, id: string)
    requires n <= |order| && id in b.lanes
    ensures var b' := Wave(b, order, outcomes, n);
            && id in b'.lanes
            && b'.lanes[id].branch == b.lanes[id].branch && b'.lanes[id].slot == b.lanes[id].slot
            && (id in order[..n] ==> !Has(b', id, {LaneComplete}))
            && (id !in order[..n] ==> b'.lanes[id] == b.lanes[id])
  {
    hide Apply;
    if n > 0 {
      WaveKeepsLane(b, order, outcomes, n - 1, id);
      AttemptKeepsLane(Wave(b, order, outcomes, n - 1), Recorded(order[n - 1], outcomes(n - 1)), id);
      assert order[..n] == order[..n - 1] + [order[n - 1]];
    }
  }

  lemma {:induction false} WaveAddsNoLane(b: Book, order: seq<string>, outcomes: nat -> Outcome, n: nat)
    requires n <= |order|
    requires forall id :: id in order ==> id in b.lanes
    ensures Wave(b, order, outcomes, n).lanes.Keys == b.lanes.Keys
  {
    if n > 0 {
      WaveAddsNoLane(b, order, outcomes, n - 1);
    }
  }

  /** With distinct queue ids each attempted lane ends as its own merge did. */
  lemma {:induction false} WaveVerdicts(b: Book, order: seq<string>, outcomes: nat -> Outcome, n: nat, i: nat)
    requires i < n <= |order| && Distinct(order)
    ensures var b' := Wave(b, order, outcomes, n);
            && (Has(b', order[i], {Merged}) <==> outcomes(i).Landed?)
            && (Has(b', order[i], {Demoted}) <==> outcomes(i).Conflict?)
            && (outcomes(i).Landed? ==>
                  b'.lanes[order[i]].mergeIndex == Some(|b.merges| + |Split(order, outcomes, i, true)|))
  {
    if i < n - 1 {
      WaveVerdicts(b, order, outcomes, n - 1, i);
    } else {
      WaveExtendsMergeOrder(b, order, outcomes, i);
    }
  }

  /** A second wave over (part of) the same queue, with no new completions, does nothing. */
  lemma SecondWaveIsEmpty(b: Book, queue: seq<string>, outcomes: nat -> Outcome, again: seq<string>)
    requires forall id :: id in again ==> id in queue
    ensures var order := MergeOrder(b, queue);
            MergeOrder(Wave(b, order, outcomes, |order|), again) == []
  {
    var order := MergeOrder(b, queue);
    var b' := Wave(b, order, outcomes, |order|);
    PickMembers(queue, b, {LaneComplete});
    WaveAddsNoLane(b, order, outcomes, |order|);
    PickMembers(again, b', {LaneComplete});
    assert order[..|order|] == order;
    if MergeOrder(b', again) != [] {
      var id := MergeOrder(b', again)[0];
      assert id in MergeOrder(b', again);
      assert id in again && Has(b', id, {LaneComplete});
      assert id in b'.lanes.Keys && b'.lanes.Keys == b.lanes.Keys;
      WaveKeepsLane(b, order, outcomes, |order|, id);
    }
  }

  function CompleteAll(b: Book, ids: seq<string>): Book
    decreases |ids|
  {
    if ids == [] then b else CompleteAll(Apply(b, RecordComplete(ids[0])), ids[1..])
  }

  lemma {:induction false} CompletedLanes(b: Book, ids: seq<string>, id: string)
    ensures Has(CompleteAll(b, ids), id, {LaneComplete}) <==> id in ids || Has(b, id, {LaneComplete})
    decreases |ids|
  {
    if ids != [] {
      CompletedLanes(Apply(b, RecordComplete(ids[0])), ids[1..], id);
    }
  }

  /** The merge sequence follows the queue, whatever order the lanes completed in. */
  lemma {:induction false} CompletionOrderIsIrrelevant(b: Book, done: seq<string>, otherOrder: seq<string>, queue: seq<string>)
    requires forall id :: id in done <==> id in otherOrder
    ensures MergeOrder(CompleteAll(b, done), queue) == MergeOrder(CompleteAll(b, otherOrder), queue)
  {
    if queue != [] {
      CompletedLanes(b, done, queue[0]);
      CompletedLanes(b, otherOrder, queue[0]);
      CompletionOrderIsIrrelevant(b, done, otherOrder, queue[1..]);
    }
  }

  // ---- the ledger file ----

  class Ledger {
    var lanes: map<string, Lane>
    var order: seq<string>
    var merges: seq<string>

    constructor ()
      ensures Contents() == EMPTY_BOOK
    {
      lanes, order, merges := map[], [], [];
    }

    function Contents(): Book
      reads this
    {
      Book(lanes, order, merges)
    }

    /** Python's `lanes.setdefault(id, {})` followed by writing fields of that entry. */
    method Store(id: string, lane: Lane)
      modifies this
      ensures Contents() == Put(old(Contents()), id, lane)
    {
      if id !in lanes {
        order := order + [id];
      }
      lanes := lanes[id := lane];
    }

    method RecordClaim(id: string, slot: string, branch: string)
      modifies this
      ensures Contents() == Apply(old(Contents()), Step.RecordClaim(id, slot, branch))
    {
      Store(id, Lane(Some(slot), Some(branch), Some(Claimed), None, None, None, None));
    }

    method RecordLaneComplete(id: string)
      modifies this
      ensures Contents() == Apply(old(Contents()), RecordComplete(id))
    {
      var lane := if id in lanes then lanes[id] else NO_LANE;
      Store(id, lane.(status := Some(LaneComplete)));
    }

    method RecordMerge(id: string)
      modifies this
      ensures Contents() == Apply(old(Contents()), Step.RecordMerge(id))
    {
      var lane := if id in lanes then lanes[id] else NO_LANE;
      merges := merges + [id];
      Store(id, lane.(status := Some(Merged), mergeIndex := Some(|merges| - 1)));
    }

    method RecordDemotion(id: string, reason: string)
      modifies this
      ensures Contents() == Apply(old(Contents()), Step.RecordDemotion(id, reason))
    {
      var lane := if id in lanes then lanes[id] else NO_LANE;
      Store(id, lane.(status := Some(Demoted), demotionReason := Some(reason)));
    }

    method RecordPark(id: string, sentinel: string, portedTo: Option<string>)
      modifies this
      ensures Contents() == Apply(old(Contents()), Step.RecordPark(id, sentinel, portedTo))
    {
      var lane := if id in lanes then lanes[id] else NO_LANE;
      Store(id, lane.(status := Some(Parked), sentinel := Some(sentinel), portedTo := portedTo));
    }

    /** `merge_back_lanes`: merge every lane-complete lane, in queue order.  `outcomes(i)` is how the
        merge of attempt `i` ends. */
    method MergeBack(queue: seq<string>, outcomes: nat -> Outcome)
      returns (attempted: seq<string>, merged: seq<string>, demoted: seq<string>)
      modifies this
      ensures attempted == MergeOrder(old(Contents()), queue)
      ensures merged == Split(attempted, outcomes, |attempted|, true)
      ensures demoted == Split(attempted, outcomes, |attempted|, false)
      ensures Contents() == Wave(old(Contents()), attempted, outcomes, |attempted|)
      ensures Interleaves(attempted, merged, demoted)
      ensures merges == old(merges) + merged
      ensures forall id :: id in old(lanes) ==> id in lanes && lanes[id].branch == old(lanes)[id].branch
    {
      attempted := MergeOrder(Contents(), queue);
      merged, demoted := [], [];
      for i := 0 to |attempted|
        invariant merged == Split(attempted, outcomes, i, true)
        invariant demoted == Split(attempted, outcomes, i, false)
        invariant Contents() == Wave(old(Contents()), attempted, outcomes, i)
      {
        match outcomes(i) {
          case Landed =>
            RecordMerge(attempted[i]);
            merged := merged + [attempted[i]];
          case Conflict(detail) =>
            RecordDemotion(attempted[i], detail);
            demoted := demoted + [attempted[i]];
        }
      }
      WaveSplitsAttempts(attempted, outcomes, |attempted|);
      WaveExtendsMergeOrder(old(Contents()), attempted, outcomes, |attempted|);
      assert attempted[..|attempted|] == attempted;
      forall id | id in old(lanes) ensures id in lanes && lanes[id].branch == old(lanes)[id].branch {
        WaveKeepsLane(old(Contents()), attempted, outcomes, |attempted|, id);
      }
    }

    /** `flush_summary`: the end-of-run grouping. */
    method FlushSummary() returns (f: Groups)
      ensures f == Flush(Contents())
    {
      var b := Contents();
      var demoted, parked, claimed := [], [], [];
      for i := 0 to |order|
        invariant demoted == Pick(order[..i], b, {Demoted})
        invariant parked == Pick(order[..i], b, {Parked})
        invariant claimed == Pick(order[..i], b, {Claimed, LaneComplete})
      {
        var id := order[i];
        assert order[..i + 1] == order[..i] + [id];
        PickAppend(order[..i], b, {Demoted}, id);
        PickAppend(order[..i], b, {Parked}, id);
        PickAppend(order[..i], b, {Claimed, LaneComplete}, id);
        if Has(b, id, {Demoted}) {
          demoted := demoted + [id];
        } else if Has(b, id, {Parked}) {
          parked := parked + [id];
        } else if Has(b, id, {Claimed, LaneComplete}) {
          claimed := claimed + [id];
        }
      }
      assert order[..|order|] == order;
      f := Groups(Pick(merges, b, {Merged}), demoted, parked, claimed);
    }
  }
}
