/** What rebalancing does to the leaves each shard holds, as a function of the shard map. */
module ForestSpec {
  import opened Types

  /** The leaves held by each shard. */
  type Holdings = map<uint32, seq<Hash>>

  ghost predicate IsMaxID(ids: set<uint32>, m: uint32) {
    (forall id | id in ids :: id <= m) && (m in ids || m == 0)
  }

  lemma {:induction false} MaxIDExists(ids: set<uint32>)
    ensures exists m: uint32 :: IsMaxID(ids, m)
  {
    if ids == {} {
      assert IsMaxID(ids, 0);
    } else {
      var id :| id in ids;
      MaxIDExists(ids - {id});
      var m: uint32 :| IsMaxID(ids - {id}, m);
      assert ids == ids - {id} + {id};
      assert IsMaxID(ids, if id > m then id else m);
    }
  }

  /** The largest ID in use, or 0. */
  ghost function MaxID(ids: set<uint32>): (m: uint32)
    ensures IsMaxID(ids, m)
  {
    MaxIDExists(ids);
    var m: uint32 :| IsMaxID(ids, m);
    m
  }

  /** The next ID in 32 bits. */
  ghost function NextID(ids: set<uint32>): uint32 {
    (MaxID(ids) + 1) % U32
  }

  /** The first half of the leaves, rounded down. */
  function LowerHalf(leaves: seq<Hash>): seq<Hash> {
    seq<Hash>(|leaves| / 2, i requires 0 <= i < |leaves| / 2 => leaves[i])
  }

  /** All leaves but the first half. */
  function UpperHalf(leaves: seq<Hash>): seq<Hash> {
    var mid := |leaves| / 2;
    seq<Hash>(|leaves| - mid, i requires 0 <= i < |leaves| - mid => leaves[mid + i])
  }

  lemma {:induction false} HalvesMakeWhole(leaves: seq<Hash>)
    ensures LowerHalf(leaves) + UpperHalf(leaves) == leaves
  {
  }

  datatype Step = SplitStep(id: uint32) | MergeStep(id1: uint32, id2: uint32)

  /** Whether the step finds its shards. */
  ghost predicate Enabled(held: Holdings, step: Step) {
    match step
    case SplitStep(id) => id in held
    case MergeStep(id1, id2) => id1 in held && id2 in held
  }

  /** A split keeps the parent and adds the right child under the next ID; a merge replaces two shards by one. */
  ghost function After(held: Holdings, step: Step): Holdings {
    if !Enabled(held, step) then held
    else
      match step
      case SplitStep(id) => held[NextID(held.Keys) := UpperHalf(held[id])]
      case MergeStep(id1, id2) => held[NextID(held.Keys) := held[id1] + held[id2]] - {id1, id2}
  }

  /** What the new shard holds: the second half of a split shard, rounded up; both shards of a merge, the first one first. */
  lemma {:induction false} NewShardHolds(held: Holdings, step: Step)
    requires Enabled(held, step) && NextID(held.Keys) !in held
    ensures NextID(held.Keys) in After(held, step)
    ensures var added := After(held, step)[NextID(held.Keys)];
            match step
            case SplitStep(id) =>
              var whole := held[id];
              |added| == (|whole| + 1) / 2 && forall i | 0 <= i < |added| :: added[i] == whole[|whole| / 2 + i]
            case MergeStep(id1, id2) =>
              added == held[id1] + held[id2]
  {
  }

  ghost function Contents(held: Holdings): set<Hash> {
    set id, h | id in held && h in held[id] :: h
  }

  lemma {:induction false} MaxIDIsUnique(ids: set<uint32>, m: uint32)
    ensures IsMaxID(ids, m) <==> m == MaxID(ids)
  {
  }

  lemma {:induction false} SplitKeepsContents(held: Holdings, id: uint32, newID: uint32)
    requires id in held && newID !in held
    ensures Contents(held[newID := UpperHalf(held[id])]) == Contents(held)
  {
    var held' := held[newID := UpperHalf(held[id])];
    forall h | h in Contents(held) ensures h in Contents(held') {
      var i :| i in held && h in held[i];
      assert held'[i] == held[i];
    }
    forall h | h in Contents(held') ensures h in Contents(held) {
      var i :| i in held' && h in held'[i];
      assert i == newID ==> h in held[id];
    }
  }

  lemma {:induction false} MergeKeepsContents(held: Holdings, id1: uint32, id2: uint32, newID: uint32)
    requires id1 in held && id2 in held && newID !in held
    ensures Contents(held[newID := held[id1] + held[id2]] - {id1, id2}) == Contents(held)
  {
    var held' := held[newID := held[id1] + held[id2]] - {id1, id2};
    forall h | h in Contents(held) ensures h in Contents(held') {
      var i :| i in held && h in held[i];
      if i == id1 || i == id2 {
        assert h in held'[newID];
      } else {
        assert held'[i] == held[i];
      }
    }
    forall h | h in Contents(held') ensures h in Contents(held) {
      var i :| i in held' && h in held'[i];
      assert i == newID ==> h in held[id1] || h in held[id2];
    }
  }

  /**
   * Below the 32-bit limit a step that finds its shards takes an ID that was never the largest, overwrites nothing,
   * raises the largest ID by exactly one, and keeps every leaf; any other step changes nothing.
   */
  lemma {:induction false} StepIsSafe(held: Holdings, step: Step)
    requires MaxID(held.Keys) + 1 < U32
    ensures Contents(After(held, step)) == Contents(held)
    ensures MaxID(After(held, step).Keys) == MaxID(held.Keys) + (if Enabled(held, step) then 1 else 0)
    ensures NextID(held.Keys) !in held
    ensures forall id | id in held && id in After(held, step) :: After(held, step)[id] == held[id]
  {
    var newID := NextID(held.Keys);
    assert newID == MaxID(held.Keys) + 1;
    if Enabled(held, step) {
      match step {
        case SplitStep(id) =>
          SplitKeepsContents(held, id, newID);
        case MergeStep(id1, id2) =>
          MergeKeepsContents(held, id1, id2, newID);
      }
      MaxIDIsUnique(After(held, step).Keys, newID);
    }
  }

  /** The holdings after a run of steps, each applied to what the ones before it left. */
  ghost function Run(held: Holdings, steps: seq<Step>): Holdings {
    if steps == [] then held else After(Run(held, steps[..|steps| - 1]), steps[|steps| - 1])
  }

  /** The number of steps of the run that found their shards. */
  ghost function Successes(held: Holdings, steps: seq<Step>): nat {
    if steps == [] then 0
    else
      var front := steps[..|steps| - 1];
      Successes(held, front) + (if Enabled(Run(held, front), steps[|steps| - 1]) then 1 else 0)
  }

  /** Content preservation: no run of splits and merges below the 32-bit limit loses or invents a leaf. */
  lemma {:induction false} RunKeepsContents(held: Holdings, steps: seq<Step>)
    requires MaxID(held.Keys) + Successes(held, steps) < U32
    ensures Contents(Run(held, steps)) == Contents(held)
    ensures MaxID(Run(held, steps).Keys) == MaxID(held.Keys) + Successes(held, steps)
  {
    if steps != [] {
      var front, last := steps[..|steps| - 1], steps[|steps| - 1];
      RunKeepsContents(held, front);
      if Enabled(Run(held, front), last) {
        StepIsSafe(Run(held, front), last);
      }
    }
  }

  lemma {:induction false} SuccessesGrow(held: Holdings, steps: seq<Step>, k: nat)
    requires k <= |steps|
    ensures Successes(held, steps[..k]) <= Successes(held, steps)
  {
    if k == |steps| {
      assert steps[..k] == steps;
    } else {
      assert steps[..|steps| - 1][..k] == steps[..k];
      SuccessesGrow(held, steps[..|steps| - 1], k);
    }
  }

  /** No ID returns: one held after a run but not after its first k steps is above all IDs ever held up to then. */
  lemma {:induction false} NoIDReturns(held: Holdings, steps: seq<Step>, k: nat, id: uint32)
    requires MaxID(held.Keys) + Successes(held, steps) < U32 && k <= |steps|
    requires id in Run(held, steps) && id !in Run(held, steps[..k])
    ensures id > MaxID(Run(held, steps[..k]).Keys) && forall j | 0 <= j <= k :: id !in Run(held, steps[..j])
  {
    forall j | 0 <= j <= k ensures MaxID(Run(held, steps[..j]).Keys) <= MaxID(Run(held, steps[..k]).Keys) {
      LargestIDGrows(held, steps, j, k);
    }
    NewIDIsLarger(held, steps, k, id);
  }

  lemma {:induction false} LargestIDGrows(held: Holdings, steps: seq<Step>, j: nat, k: nat)
    requires MaxID(held.Keys) + Successes(held, steps) < U32 && j <= k <= |steps|
    ensures MaxID(Run(held, steps[..j]).Keys) <= MaxID(Run(held, steps[..k]).Keys)
  {
    SuccessesGrow(held, steps, k);
    SuccessesGrow(held, steps[..k], j);
    assert steps[..k][..j] == steps[..j];
    RunKeepsContents(held, steps[..j]);
    RunKeepsContents(held, steps[..k]);
  }

  lemma {:induction false} NewIDIsLarger(held: Holdings, steps: seq<Step>, k: nat, id: uint32)
    requires MaxID(held.Keys) + Successes(held, steps) < U32 && k <= |steps|
    requires id in Run(held, steps) && id !in Run(held, steps[..k])
    ensures id > MaxID(Run(held, steps[..k]).Keys)
  {
    assert steps[..|steps|] == steps;
    if k < |steps| {
      var front := steps[..|steps| - 1];
      assert front[..k] == steps[..k];
      if id in Run(held, front) {
        NewIDIsLarger(held, front, k, id);
      } else {
        LargestIDGrows(held, steps, k, |steps| - 1);
        RunKeepsContents(held, front);
        NewIDIsNext(Run(held, front), steps[|steps| - 1], id);
      }
    }
  }

  lemma {:induction false} NewIDIsNext(held: Holdings, step: Step, id: uint32)
    requires id !in held && id in After(held, step)
    ensures id == NextID(held.Keys)
  {
  }

  // ---- when merges decided on together all go through ---------------------------------------------

  ghost predicate EnabledAt(held: Holdings, steps: seq<Step>, i: int)
    requires 0 <= i < |steps|
  {
    Enabled(Run(held, steps[..i]), steps[i])
  }

  /** Every step finds its shards when its turn comes. */
  ghost predicate AllEnabled(held: Holdings, steps: seq<Step>) {
    forall i {:trigger EnabledAt(held, steps, i)} | 0 <= i < |steps| :: EnabledAt(held, steps, i)
  }

  ghost predicate Names(step: Step, id: uint32) {
    match step
    case SplitStep(id1) => id == id1
    case MergeStep(id1, id2) => id == id1 || id == id2
  }

  /** No two steps name the same shard. */
  ghost predicate NamedOnce(steps: seq<Step>) {
    forall i, j, id | 0 <= i < j < |steps| && Names(steps[i], id) :: !Names(steps[j], id)
  }

  ghost predicate NamedBefore(steps: seq<Step>, k: int, id: uint32) {
    exists i :: 0 <= i < k <= |steps| && Names(steps[i], id)
  }

  /** Merges of two different shards each, all of which exist to begin with. */
  ghost predicate MergesOf(held: Holdings, steps: seq<Step>) {
    forall i | 0 <= i < |steps| ::
      steps[i].MergeStep? && steps[i].id1 != steps[i].id2 && steps[i].id1 in held && steps[i].id2 in held
  }

  lemma {:induction false} SuccessesBounded(held: Holdings, steps: seq<Step>)
    ensures Successes(held, steps) <= |steps|
  {
    if steps != [] {
      SuccessesBounded(held, steps[..|steps| - 1]);
    }
  }

  /** What is left of the first shards after k merges are those not named yet. */
  lemma {:induction false} LeftAfterMerges(held: Holdings, steps: seq<Step>, k: nat, id: uint32)
    requires MaxID(held.Keys) + |steps| < U32 && MergesOf(held, steps) && k <= |steps| && id in held
    requires forall i {:trigger EnabledAt(held, steps, i)} | 0 <= i < k :: EnabledAt(held, steps, i)
    ensures id in Run(held, steps[..k]) <==> !NamedBefore(steps, k, id)
  {
    if k > 0 {
      LeftAfterMerges(held, steps, k - 1, id);
      assert EnabledAt(held, steps, k - 1);
      assert steps[..k][..k - 1] == steps[..k - 1];
      var before := Run(held, steps[..k - 1]);
      SuccessesBounded(held, steps[..k - 1]);
      RunKeepsContents(held, steps[..k - 1]);
      assert NextID(before.Keys) > MaxID(held.Keys) >= id;
      NamedLast(steps, k, id);
    }
  }

  lemma {:induction false} NamedLast(steps: seq<Step>, k: nat, id: uint32)
    requires 0 < k <= |steps|
    ensures NamedBefore(steps, k, id) <==> NamedBefore(steps, k - 1, id) || Names(steps[k - 1], id)
  {
  }

  /** Merges decided on together all go through exactly if no shard is named twice. */
  lemma {:induction false} MergesGoThrough(held: Holdings, steps: seq<Step>)
    requires MaxID(held.Keys) + |steps| < U32 && MergesOf(held, steps)
    ensures AllEnabled(held, steps) <==> NamedOnce(steps)
  {
    if AllEnabled(held, steps) {
      forall i, j, id | 0 <= i < j < |steps| && Names(steps[i], id) ensures !Names(steps[j], id) {
        if Names(steps[j], id) {
          assert EnabledAt(held, steps, j) && NamedBefore(steps, j, id);
          LeftAfterMerges(held, steps, j, id);
        }
      }
    }
    if NamedOnce(steps) {
      EnabledUpTo(held, steps, |steps|);
    }
  }

  lemma {:induction false} EnabledUpTo(held: Holdings, steps: seq<Step>, k: nat)
    requires MaxID(held.Keys) + |steps| < U32 && MergesOf(held, steps) && NamedOnce(steps) && k <= |steps|
    ensures forall i {:trigger EnabledAt(held, steps, i)} | 0 <= i < k :: EnabledAt(held, steps, i)
  {
    if k > 0 {
      EnabledUpTo(held, steps, k - 1);
      var step := steps[k - 1];
      assert Names(step, step.id1) && Names(step, step.id2);
      LeftAfterMerges(held, steps, k - 1, step.id1);
      LeftAfterMerges(held, steps, k - 1, step.id2);
    }
  }

  // ---- at the 32-bit limit -------------------------------------------------------------------

  /** The next ID is free below the limit, and at the limit exactly when there is no shard 0. */
  lemma {:induction false} NextIDIsFree(held: Holdings)
    ensures NextID(held.Keys) !in held <==> MaxID(held.Keys) + 1 < U32 || 0 !in held
  {
  }

  /** The leaves that the step would drop if no other shard held them. */
  ghost function AtRisk(held: Holdings, step: Step): set<Hash>
    requires Enabled(held, step) && 0 in held
  {
    match step
    case SplitStep(id) => SetOf(held[0]) - SetOf(UpperHalf(held[id]))
    case MergeStep(id1, id2) =>
      if id1 == 0 || id2 == 0 then SetOf(held[id1]) + SetOf(held[id2]) else SetOf(held[0])
  }

  /** The shards that the step overwrites or removes for good. */
  ghost function Vacated(step: Step): set<uint32> {
    match step
    case SplitStep(id) => {0}
    case MergeStep(id1, id2) => if id1 == 0 || id2 == 0 then {id1, id2} else {0}
  }

  /**
   * A step keeps the leaves exactly if the next ID is free, or else every leaf at risk is held by another shard: of shard
   * 0, unless the split's upper half has it; of shard 0 when two others merge; of both shards when one of them is 0.
   */
  lemma {:induction false} StepKeepsContents(held: Holdings, step: Step)
    requires Enabled(held, step)
    ensures Contents(After(held, step)) == Contents(held) <==>
            (MaxID(held.Keys) + 1 < U32 || 0 !in held || AtRisk(held, step) <= Contents(held - Vacated(step)))
  {
    NextIDIsFree(held);
    if NextID(held.Keys) !in held {
      match step {
        case SplitStep(id) => SplitKeepsContents(held, id, NextID(held.Keys));
        case MergeStep(id1, id2) => MergeKeepsContents(held, id1, id2, NextID(held.Keys));
      }
    } else {
      match step {
        case SplitStep(id) => SplitAtLimit(held, id);
        case MergeStep(id1, id2) => MergeAtLimit(held, id1, id2);
      }
    }
  }

  /** Contents of a map with one entry replaced. */
  lemma {:induction false} ContentsWith(held: Holdings, id: uint32, leaves: seq<Hash>)
    ensures Contents(held[id := leaves]) == Contents(held - {id}) + SetOf(leaves)
  {
    var held', rest := held[id := leaves], held - {id};
    forall h ensures h in Contents(held') <==> h in Contents(rest) || h in leaves {
      if h in leaves {
        assert held'[id] == leaves;
      }
      if h in Contents(rest) {
        var i :| i in rest && h in rest[i];
        assert held'[i] == rest[i];
      }
      if h in Contents(held') {
        var i :| i in held' && h in held'[i];
        assert i != id ==> i in rest && h in rest[i];
      }
    }
  }

  lemma {:induction false} SplitAtLimit(held: Holdings, id: uint32)
    requires id in held && 0 in held && MaxID(held.Keys) + 1 == U32
    ensures Contents(After(held, SplitStep(id))) == Contents(held)
       <==> SetOf(held[0]) - SetOf(UpperHalf(held[id])) <= Contents(held - {0})
  {
    var part := UpperHalf(held[id]);
    ContentsWith(held, 0, part);
    ContentsWith(held, 0, held[0]);
    assert held[0 := held[0]] == held;
    forall h | h in part ensures h in Contents(held) {
      assert h in held[id];
    }
  }

  lemma {:induction false} MergeAtLimit(held: Holdings, id1: uint32, id2: uint32)
    requires id1 in held && id2 in held && 0 in held && MaxID(held.Keys) + 1 == U32
    ensures Contents(After(held, MergeStep(id1, id2))) == Contents(held)
       <==> AtRisk(held, MergeStep(id1, id2)) <= Contents(held - Vacated(MergeStep(id1, id2)))
  {
    ContentsWith(held - {id2}, id1, held[id1]);
    ContentsWith(held, id2, held[id2]);
    assert held[id2 := held[id2]] == held;
    var merged := held[id1] + held[id2];
    if id1 == 0 || id2 == 0 {
      assert After(held, MergeStep(id1, id2)) == held - {id1, id2};
      assert held - {id1, id2} == held - {id2} - {id1};
      assert id1 != id2 ==> (held - {id2})[id1 := held[id1]] == held - {id2};
      assert id1 == id2 ==> held - {id2} - {id1} == held - {id2};
    } else {
      MergeOfOthersAtLimit(held, id1, id2);
    }
  }

  lemma {:induction false} MergeOfOthersAtLimit(held: Holdings, id1: uint32, id2: uint32)
    requires id1 in held && id2 in held && 0 in held && MaxID(held.Keys) + 1 == U32 && id1 != 0 && id2 != 0
    ensures Contents(After(held, MergeStep(id1, id2))) == Contents(held) <==> SetOf(held[0]) <= Contents(held - {0})
  {
    var rest, merged := held - {0}, held[id1] + held[id2];
    ContentsWith(held, 0, held[0]);
    assert held[0 := held[0]] == held;
    assert After(held, MergeStep(id1, id2)) == (held - {id1, id2})[0 := merged];
    ContentsWith(held - {id1, id2}, 0, merged);
    MergedContents(rest, id1, id2);
    assert held - {id1, id2} - {0} == rest - {id1, id2};
  }

  lemma {:induction false} MergedContents(held: Holdings, id1: uint32, id2: uint32)
    requires id1 in held && id2 in held
    ensures Contents(held - {id1, id2}) + SetOf(held[id1] + held[id2]) == Contents(held)
  {
    forall h ensures h in Contents(held - {id1, id2}) || h in held[id1] || h in held[id2] <==> h in Contents(held) {
      if h in Contents(held) {
        var i :| i in held && h in held[i];
        assert i != id1 && i != id2 ==> i in held - {id1, id2} && (held - {id1, id2})[i] == held[i];
      }
    }
  }

  /** At the limit the next ID is 0 again, and a split overwrites shard 0 with the right child's leaves. */
  lemma {:induction false} LimitOverwritesShardZero(held: Holdings, id: uint32)
    requires MaxID(held.Keys) == U32 - 1 && id in held && 0 in held
    ensures After(held, SplitStep(id)) == held[0 := UpperHalf(held[id])]
    ensures Contents(After(held, SplitStep(id))) == Contents(held - {0}) + SetOf(UpperHalf(held[id]))
  {
    ContentsWith(held, 0, UpperHalf(held[id]));
  }

  // ---- operations on several shards ----------------------------------------------------------

  function Copies(leaf: Hash, n: nat): seq<Hash> {
    seq<Hash>(n, i requires 0 <= i < n => leaf)
  }

  /** How often the shard is listed. */
  ghost function Listed(ids: seq<uint32>, id: uint32): nat {
    if ids == [] then 0 else Listed(ids[..|ids| - 1], id) + (if ids[|ids| - 1] == id then 1 else 0)
  }

  /** What operations on the listed shards in turn append to one of them. */
  ghost function Added(ids: seq<uint32>, id: uint32, leaf: Hash): seq<Hash> {
    Copies(leaf, Listed(ids, id))
  }

  ghost function Places(ids: seq<uint32>, id: uint32): set<int> {
    set i | 0 <= i < |ids| && ids[i] == id
  }

  /** A shard gets the leaf once for every place it is listed at. */
  lemma {:induction false} AddedOncePerPlace(ids: seq<uint32>, id: uint32, leaf: Hash)
    ensures |Added(ids, id, leaf)| == |Places(ids, id)|
    ensures forall i | 0 <= i < |Added(ids, id, leaf)| :: Added(ids, id, leaf)[i] == leaf
  {
    if ids != [] {
      var front, last := ids[..|ids| - 1], |ids| - 1;
      AddedOncePerPlace(front, id, leaf);
      assert Places(ids, id) == Places(front, id) + (if ids[last] == id then {last} else {});
    }
  }

  lemma {:induction false} NoneAdded(leaf: Hash)
    ensures forall id: uint32 :: Added([], id, leaf) == []
  {
  }

  lemma {:induction false} AddedOneMore(leaves: seq<Hash>, ids: seq<uint32>, k: nat, id: uint32, leaf: Hash)
    requires k < |ids|
    ensures leaves + Added(ids[..k + 1], id, leaf)
         == (if ids[k] == id then leaves + Added(ids[..k], id, leaf) + [leaf] else leaves + Added(ids[..k], id, leaf))
  {
    assert ids[..k + 1][..k] == ids[..k];
  }
}
