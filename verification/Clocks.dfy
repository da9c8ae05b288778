/** Vector clocks: their order, their join, and the strategies that pick one of several conflicting states. */
module VectorClocks {
  import opened Types

  type Clock = map<string, uint64>

  // ---- the two orders ------------------------------------------------------------------------

  /** Every node b knows less of than a is one a has not heard of. */
  predicate Within(a: Clock, b: Clock) {
    forall node | node in a :: node in b && a[node] <= b[node]
  }

  /** Within, and strictly behind on some node that a has heard of. */
  predicate HappensBefore(a: Clock, b: Clock) {
    Within(a, b) && exists node | node in a :: a[node] < b[node]
  }

  method happensBefore(vc1: Clock, vc2: Clock) returns (before: bool)
    ensures before <==> HappensBefore(vc1, vc2)
  {
    var less, equal := false, true;
    var todo := vc1.Keys;
    while todo != {}
      invariant todo <= vc1.Keys
      invariant forall node | node in vc1 && node !in todo :: node in vc2 && vc1[node] <= vc2[node]
      invariant less <==> exists node | node in vc1 && node !in todo && node in vc2 :: vc1[node] < vc2[node]
      invariant equal <==> !less
      decreases todo
    {
      var node :| node in todo;
      ghost var before := todo;
      todo := todo - {node};
      if node !in vc2 || vc1[node] > vc2[node] {
        return false;
      }
      if vc1[node] < vc2[node] {
        less := true;
      }
      if vc1[node] != vc2[node] {
        equal := false;
      }
    }
    before := less && !equal;
  }

  lemma {:induction false} WithinIsPartialOrder(a: Clock, b: Clock, c: Clock)
    ensures Within(a, a)
    ensures Within(a, b) && Within(b, a) ==> a == b
    ensures Within(a, b) && Within(b, c) ==> Within(a, c)
  {
  }

  lemma {:induction false} HappensBeforeIsStrictOrder(a: Clock, b: Clock, c: Clock)
    ensures !HappensBefore(a, a)
    ensures HappensBefore(a, b) ==> !HappensBefore(b, a)
    ensures HappensBefore(a, b) && HappensBefore(b, c) ==> HappensBefore(a, c)
  {
  }

  /** Of two different clocks one within the other is not before it exactly when all it lacks is nodes. */
  lemma {:induction false} NewNodesAloneDoNotOrder(a: Clock, b: Clock)
    requires Within(a, b)
    ensures !HappensBefore(a, b) <==> a == (map node | node in a :: b[node])
  {
  }

  /** Being unordered is not transitive, so sorting by this relation promises nothing in general. */
  lemma {:induction false} UnorderedIsNotTransitive()
    ensures exists a, b, c ::
              && !HappensBefore(a, b) && !HappensBefore(b, a)
              && !HappensBefore(b, c) && !HappensBefore(c, b)
              && HappensBefore(a, c)
  {
    var a, b, c := map["m" := 1], map["n" := 1], map["m" := 2];
    assert "m" in a && a["m"] < c["m"];
    assert "m" !in b && "n" !in a && "n" !in c;
    assert !HappensBefore(a, b) && !HappensBefore(b, a) && !HappensBefore(b, c) && !HappensBefore(c, b);
    assert HappensBefore(a, c);
  }

  // ---- conflicts -----------------------------------------------------------------------------

  datatype ConflictingState = ConflictingState(nodeID: string, state: seq<byte>, clock: Clock, timestamp: int)

  datatype ResolvedState = ResolvedState(state: seq<byte>, clock: Clock, resolution: string)

  /** The conflict's states are sorted in place by two of the strategies. */
  class StateConflict {
    var states: seq<ConflictingState>

    constructor (states: seq<ConflictingState>)
      ensures this.states == states
    {
      this.states := states;
    }
  }

  // ---- the join of clocks --------------------------------------------------------------------

  function Max(x: uint64, y: uint64): uint64 {
    if x > y then x else y
  }

  function Join(a: Clock, b: Clock): Clock {
    map node | node in a.Keys + b.Keys ::
      if node !in b then a[node] else if node !in a then b[node] else Max(a[node], b[node])
  }

  function JoinAll(states: seq<ConflictingState>): Clock {
    if states == [] then map[] else Join(JoinAll(states[..|states| - 1]), states[|states| - 1].clock)
  }

  /** Node by node, raising the merged clock where the given one is ahead. */
  method MergeInto(merged: Clock, clock: Clock) returns (result: Clock)
    ensures result == Join(merged, clock)
  {
    result := merged;
    var todo := clock.Keys;
    while todo != {}
      invariant todo <= clock.Keys && result.Keys == merged.Keys + (clock.Keys - todo)
      invariant forall node | node in result ::
                  result[node] == if node in clock && node !in todo then Join(merged, clock)[node] else merged[node]
      decreases todo
    {
      var node :| node in todo;
      todo := todo - {node};
      if node !in result || clock[node] > result[node] {
        result := result[node := clock[node]];
      }
    }
  }

  method mergeVectorClocks(conflict: StateConflict) returns (merged: Clock)
    ensures merged == JoinAll(conflict.states)
  {
    merged := map[];
    for i := 0 to |conflict.states|
      invariant merged == JoinAll(conflict.states[..i])
    {
      assert conflict.states[..i + 1][..i] == conflict.states[..i];
      merged := MergeInto(merged, conflict.states[i].clock);
    }
    assert conflict.states[..|conflict.states|] == conflict.states;
  }

  ghost predicate UpperBound(states: seq<ConflictingState>, bound: Clock) {
    forall s | s in states :: Within(s.clock, bound)
  }

  /** The merged clock is the least upper bound of all clocks: within exactly the clocks that all of them are within. */
  lemma {:induction false} JoinIsLeastUpperBound(states: seq<ConflictingState>, bound: Clock)
    ensures UpperBound(states, JoinAll(states))
    ensures Within(JoinAll(states), bound) <==> UpperBound(states, bound)
  {
    if states != [] {
      var front, last := states[..|states| - 1], states[|states| - 1];
      assert states == front + [last];
      var before := JoinAll(front);
      JoinIsLeastUpperBound(front, bound);
      JoinOfTwo(before, last.clock, bound);
      JoinOfTwo(before, last.clock, JoinAll(states));
      forall s | s in states ensures Within(s.clock, JoinAll(states)) {
        if s in front {
          assert Within(s.clock, before);
          WithinIsPartialOrder(s.clock, before, JoinAll(states));
        }
      }
      assert UpperBound(states, bound) <==> UpperBound(front, bound) && Within(last.clock, bound);
    }
  }

  lemma {:induction false} JoinOfTwo(a: Clock, b: Clock, bound: Clock)
    ensures Within(a, Join(a, b)) && Within(b, Join(a, b))
    ensures Within(Join(a, b), bound) <==> Within(a, bound) && Within(b, bound)
  {
  }

  ghost function ClocksOf(states: seq<ConflictingState>): set<Clock> {
    set s | s in states :: s.clock
  }

  /** The merged clock depends only on which clocks there are, not on their order or number. */
  lemma {:induction false} JoinIgnoresOrder(xs: seq<ConflictingState>, ys: seq<ConflictingState>)
    requires ClocksOf(xs) == ClocksOf(ys)
    ensures JoinAll(xs) == JoinAll(ys)
  {
    WithinOther(xs, ys);
    WithinOther(ys, xs);
    WithinIsPartialOrder(JoinAll(xs), JoinAll(ys), JoinAll(ys));
  }

  lemma {:induction false} WithinOther(xs: seq<ConflictingState>, ys: seq<ConflictingState>)
    requires ClocksOf(xs) <= ClocksOf(ys)
    ensures Within(JoinAll(xs), JoinAll(ys))
  {
    JoinIsLeastUpperBound(ys, JoinAll(ys));
    forall s | s in xs ensures Within(s.clock, JoinAll(ys)) {
      assert s.clock in ClocksOf(xs);
      var t :| t in ys && t.clock == s.clock;
    }
    JoinIsLeastUpperBound(xs, JoinAll(ys));
  }

  // ---- sorting -------------------------------------------------------------------------------

  type Less = (ConflictingState, ConflictingState) -> bool

  /** On these states the relation is asymmetric, and what it does not separate is interchangeable. */
  ghost predicate StrictWeakOrder(less: Less, states: seq<ConflictingState>) {
    && (forall a, b | a in states && b in states && less(a, b) :: !less(b, a))
    && forall a, b, c | a in states && b in states && c in states && !less(a, b) && !less(b, c) :: !less(a, c)
  }

  ghost predicate Sorted(less: Less, states: seq<ConflictingState>) {
    forall i, j | 0 <= i < j < |states| :: !less(states[j], states[i])
  }

  ghost predicate SameStates(xs: seq<ConflictingState>, ys: seq<ConflictingState>) {
    multiset(xs) == multiset(ys)
  }

  lemma {:induction false} SameMembers(xs: seq<ConflictingState>, ys: seq<ConflictingState>)
    requires SameStates(xs, ys)
    ensures |xs| == |ys| && forall s :: s in xs <==> s in ys
  {
    assert |multiset(xs)| == |multiset(ys)|;
    forall s ensures s in xs <==> s in ys {
      assert s in multiset(xs) <==> s in multiset(ys);
    }
  }

  /** Put one state where it belongs. */
  method Insert(less: Less, sorted: seq<ConflictingState>, x: ConflictingState, ghost all: seq<ConflictingState>)
    returns (result: seq<ConflictingState>)
    requires x in all && forall s | s in sorted :: s in all
    ensures multiset(result) == multiset(sorted) + multiset{x}
    ensures StrictWeakOrder(less, all) && Sorted(less, sorted) ==> Sorted(less, result)
  {
    var k := |sorted|;
    while k > 0 && less(x, sorted[k - 1])
      invariant 0 <= k <= |sorted| && forall j | k <= j < |sorted| :: less(x, sorted[j])
    {
      k := k - 1;
    }
    result := sorted[..k] + [x] + sorted[k..];
    assert sorted == sorted[..k] + sorted[k..];
    if StrictWeakOrder(less, all) && Sorted(less, sorted) {
      InsertedIsSorted(less, sorted, x, all, k);
    }
  }

  lemma {:induction false} InsertedIsSorted(less: Less, sorted: seq<ConflictingState>, x: ConflictingState,
                                            all: seq<ConflictingState>, k: nat)
    requires StrictWeakOrder(less, all) && Sorted(less, sorted) && x in all && forall s | s in sorted :: s in all
    requires k <= |sorted| && (k > 0 ==> !less(x, sorted[k - 1])) && forall j | k <= j < |sorted| :: less(x, sorted[j])
    ensures Sorted(less, sorted[..k] + [x] + sorted[k..])
  {
  }

  /** The lists the library's sort may return: permutations, sorted ones if the relation is a strict weak order on the states. */
  ghost predicate MaySort(less: Less, states: seq<ConflictingState>, sorted: seq<ConflictingState>) {
    SameStates(sorted, states) && (StrictWeakOrder(less, states) ==> Sorted(less, sorted))
  }

  /** The same states with one of them moved to the front, and to the end. */
  lemma {:induction false} MovedToEnds(states: seq<ConflictingState>, s: ConflictingState) returns (rest: seq<ConflictingState>)
    requires s in states
    ensures SameStates([s] + rest, states) && SameStates(rest + [s], states) && |rest| == |states| - 1
    ensures forall t :: t in states <==> t == s || t in rest
  {
    var k :| 0 <= k < |states| && states[k] == s;
    rest := states[..k] + states[k + 1..];
    assert states == states[..k] + [s] + states[k + 1..];
    SameMembers([s] + rest, states);
  }

  /** What the library's sort promises: a permutation, sorted if the relation is a strict weak order on the states. */
  method SortSlice(states: seq<ConflictingState>, less: Less) returns (sorted: seq<ConflictingState>)
    ensures MaySort(less, states, sorted)
  {
    sorted := [];
    for i := 0 to |states|
      invariant multiset(sorted) == multiset(states[..i])
      invariant StrictWeakOrder(less, states) ==> Sorted(less, sorted)
    {
      assert states[..i + 1] == states[..i] + [states[i]];
      SameMembers(sorted, states[..i]);
      sorted := Insert(less, sorted, states[i], states);
    }
    assert states[..|states|] == states;
  }

  // ---- last writer wins ----------------------------------------------------------------------

  /** The winner is some state with the latest timestamp. */
  ghost predicate IsLatest(states: seq<ConflictingState>, winner: ConflictingState) {
    winner in states && forall s | s in states :: s.timestamp <= winner.timestamp
  }

  ghost predicate LastWriter(states: seq<ConflictingState>, resolved: ResolvedState) {
    exists s :: IsLatest(states, s) && resolved == ResolvedState(s.state, s.clock, "last_writer_wins")
  }

  function Later(): Less {
    (a: ConflictingState, b: ConflictingState) => a.timestamp > b.timestamp
  }

  /** What the first state of a sorted list resolves to. */
  ghost predicate ResolvesTo(sorted: seq<ConflictingState>, resolved: ResolvedState) {
    sorted != [] && resolved == ResolvedState(sorted[0].state, sorted[0].clock, "last_writer_wins")
  }

  /** Some list that the sort may return resolves to this. */
  ghost predicate MayResolve(states: seq<ConflictingState>, resolved: ResolvedState) {
    exists sorted :: MaySort(Later(), states, sorted) && ResolvesTo(sorted, resolved)
  }

  lemma {:induction false} LatestExists(states: seq<ConflictingState>) returns (s: ConflictingState)
    requires states != []
    ensures IsLatest(states, s)
  {
    s := states[|states| - 1];
    if |states| > 1 {
      var front := states[..|states| - 1];
      assert states == front + [s];
      var t := LatestExists(front);
      if t.timestamp > s.timestamp {
        s := t;
      }
    }
  }

  /** Any state with the latest timestamp comes first in some list that the sort may return. */
  lemma {:induction false} LatestMayComeFirst(states: seq<ConflictingState>, s: ConflictingState)
    returns (sorted: seq<ConflictingState>)
    requires IsLatest(states, s)
    ensures SameStates(sorted, states) && Sorted(Later(), sorted) && sorted != [] && sorted[0] == s
    decreases |states|
  {
    var rest := MovedToEnds(states, s);
    var tail: seq<ConflictingState> := [];
    if rest != [] {
      var next := LatestExists(rest);
      tail := LatestMayComeFirst(rest, next);
    }
    sorted := [s] + tail;
    assert multiset(sorted) == multiset{s} + multiset(tail) == multiset([s] + rest);
    SameMembers(sorted, states);
  }

  /** The lists the sort may return resolve to exactly the states with the latest timestamp. */
  lemma {:induction false} MayResolveToLatest(states: seq<ConflictingState>, resolved: ResolvedState)
    ensures MayResolve(states, resolved) <==> LastWriter(states, resolved)
  {
    assert StrictWeakOrder(Later(), states);
    if MayResolve(states, resolved) {
      var sorted :| MaySort(Later(), states, sorted) && ResolvesTo(sorted, resolved);
      FirstIsLatest(states, sorted);
    }
    if LastWriter(states, resolved) {
      var s :| IsLatest(states, s) && resolved == ResolvedState(s.state, s.clock, "last_writer_wins");
      var sorted := LatestMayComeFirst(states, s);
      assert MaySort(Later(), states, sorted) && ResolvesTo(sorted, resolved);
    }
  }

  lemma {:induction false} FirstIsLatest(states: seq<ConflictingState>, sorted: seq<ConflictingState>)
    requires MaySort(Later(), states, sorted) && sorted != []
    ensures IsLatest(states, sorted[0])
  {
    SameMembers(sorted, states);
    forall s | s in states ensures s.timestamp <= sorted[0].timestamp {
      var i :| 0 <= i < |sorted| && sorted[i] == s;
      assert i > 0 ==> !Later()(sorted[i], sorted[0]);
    }
  }

  /** No states: the index is out of range and the call panics. */
  method lastWriterWins(conflict: StateConflict) returns (resolved: Option<ResolvedState>)
    modifies conflict
    ensures SameStates(conflict.states, old(conflict.states))
    ensures forall i, j | 0 <= i < j < |conflict.states| :: conflict.states[i].timestamp >= conflict.states[j].timestamp
    ensures resolved.None? <==> old(conflict.states) == []
    ensures resolved.Some? ==> LastWriter(old(conflict.states), resolved.value)
  {
    ghost var given := conflict.states;
    conflict.states := SortSlice(conflict.states, Later());
    assert StrictWeakOrder(Later(), given);
    SameMembers(conflict.states, given);
    assert forall i, j | 0 <= i < j < |conflict.states| :: !Later()(conflict.states[j], conflict.states[i]);
    if |conflict.states| == 0 {
      return None;
    }
    var winner := conflict.states[0];
    FirstIsLatest(given, conflict.states);
    resolved := Some(ResolvedState(winner.state, winner.clock, "last_writer_wins"));
  }

  ghost predicate DistinctTimestamps(states: seq<ConflictingState>) {
    forall i, j | 0 <= i < j < |states| :: states[i].timestamp != states[j].timestamp
  }

  /** Convergence: on distinct timestamps every order of the states resolves to the same state and clock. */
  lemma {:induction false} LastWriterConverges(xs: seq<ConflictingState>, ys: seq<ConflictingState>,
                                               r1: ResolvedState, r2: ResolvedState)
    requires SameStates(xs, ys) && DistinctTimestamps(xs) && MayResolve(xs, r1) && MayResolve(ys, r2)
    ensures r1 == r2
  {
    SameMembers(xs, ys);
    MayResolveToLatest(xs, r1);
    MayResolveToLatest(ys, r2);
    forall s, t | IsLatest(xs, s) && IsLatest(xs, t) ensures s == t {
      var i :| 0 <= i < |xs| && xs[i] == s;
      var j :| 0 <= j < |xs| && xs[j] == t;
    }
  }

  /** All replicas that may list the same states in any order agree. */
  ghost predicate Determined(states: seq<ConflictingState>) {
    forall xs, ys, r1, r2 | SameStates(xs, states) && SameStates(ys, states) && MayResolve(xs, r1) && MayResolve(ys, r2) ::
      r1 == r2
  }

  /** In general the outcome is the same for all orders, and all sorts, exactly when the latest states agree on state and clock. */
  lemma {:induction false} LastWriterIsDetermined(states: seq<ConflictingState>)
    ensures Determined(states)
       <==> (forall s, t | IsLatest(states, s) && IsLatest(states, t) :: s.state == t.state && s.clock == t.clock)
  {
    if Determined(states) {
      forall s, t | IsLatest(states, s) && IsLatest(states, t) ensures s.state == t.state && s.clock == t.clock {
        var r1, r2 := ResolvedState(s.state, s.clock, "last_writer_wins"), ResolvedState(t.state, t.clock, "last_writer_wins");
        MayResolveToLatest(states, r1);
        MayResolveToLatest(states, r2);
      }
    } else {
      var xs, ys, r1, r2 :| SameStates(xs, states) && SameStates(ys, states) && MayResolve(xs, r1) && MayResolve(ys, r2)
                            && r1 != r2;
      SameMembers(xs, states);
      SameMembers(ys, states);
      MayResolveToLatest(xs, r1);
      MayResolveToLatest(ys, r2);
      var s :| IsLatest(xs, s) && r1 == ResolvedState(s.state, s.clock, "last_writer_wins");
      var t :| IsLatest(ys, t) && r2 == ResolvedState(t.state, t.clock, "last_writer_wins");
      assert IsLatest(states, s) && IsLatest(states, t);
    }
  }

  // ---- merging -------------------------------------------------------------------------------

  /** The first state with the merged clock; with no states the call panics. */
  method mergeStrategy(conflict: StateConflict) returns (resolved: Option<ResolvedState>)
    ensures resolved.None? <==> conflict.states == []
    ensures resolved.Some? ==> resolved.value == ResolvedState(conflict.states[0].state, JoinAll(conflict.states), "merged")
  {
    if |conflict.states| == 0 {
      return None;
    }
    var clock := mergeVectorClocks(conflict);
    resolved := Some(ResolvedState(conflict.states[0].state, clock, "merged"));
  }

  /** Replicas that list the same states in different orders agree on the merged clock. */
  lemma {:induction false} MergeConvergesOnClocks(xs: seq<ConflictingState>, ys: seq<ConflictingState>)
    requires SameStates(xs, ys)
    ensures JoinAll(xs) == JoinAll(ys)
  {
    SameMembers(xs, ys);
    JoinIgnoresOrder(xs, ys);
  }

  /** On the state they agree, whatever the orders, exactly when all states are the same. */
  lemma {:induction false} MergeConvergesOnStates(xs: seq<ConflictingState>)
    requires xs != []
    ensures (forall ys: seq<ConflictingState> | SameStates(xs, ys) :: ys != [] && ys[0].state == xs[0].state)
       <==> (forall s | s in xs :: s.state == xs[0].state)
  {
    forall ys: seq<ConflictingState> | SameStates(xs, ys) ensures ys != [] && ys[0] in xs {
      SameMembers(xs, ys);
    }
    forall s | s in xs ensures exists ys: seq<ConflictingState> :: SameStates(xs, ys) && ys != [] && ys[0] == s {
      var rest := MovedToEnds(xs, s);
      var ys := [s] + rest;
      assert SameStates(xs, ys);
    }
  }

  // ---- causal order --------------------------------------------------------------------------

  /** Any two of the states are ordered by their clocks. */
  ghost predicate PairwiseOrdered(states: seq<ConflictingState>) {
    forall i, j | 0 <= i < j < |states| ::
      HappensBefore(states[i].clock, states[j].clock) || HappensBefore(states[j].clock, states[i].clock)
  }

  function Causally(): Less {
    (a: ConflictingState, b: ConflictingState) => HappensBefore(a.clock, b.clock)
  }

  lemma {:induction false} OrderedIsWeakOrder(states: seq<ConflictingState>)
    requires PairwiseOrdered(states)
    ensures StrictWeakOrder(Causally(), states)
  {
  }

  /** A state that happened before none of them. */
  ghost predicate BeforeNone(states: seq<ConflictingState>, s: ConflictingState) {
    s in states && forall t | t in states :: !HappensBefore(s.clock, t.clock)
  }

  ghost predicate EndsLate(states: seq<ConflictingState>, sorted: seq<ConflictingState>) {
    sorted != [] && BeforeNone(states, sorted[|sorted| - 1])
  }

  lemma {:induction false} SortedEndsLate(states: seq<ConflictingState>, sorted: seq<ConflictingState>)
    requires states != [] && StrictWeakOrder(Causally(), states) && MaySort(Causally(), states, sorted)
    ensures EndsLate(states, sorted)
  {
    SameMembers(sorted, states);
    var last := sorted[|sorted| - 1];
    forall t | t in states ensures !HappensBefore(last.clock, t.clock) {
      var i :| 0 <= i < |sorted| && sorted[i] == t;
      HappensBeforeIsStrictOrder(t.clock, t.clock, t.clock);
      assert i < |sorted| - 1 ==> !Causally()(last, t);
    }
  }

  /**
   * Every list the sort may return ends in a state that happened before none of them, if and only if the relation is a
   * strict weak order on the states: when being unordered is transitive among them.
   */
  lemma {:induction false} CausalSortIsRight(states: seq<ConflictingState>)
    requires states != []
    ensures (forall sorted | MaySort(Causally(), states, sorted) :: EndsLate(states, sorted))
       <==> StrictWeakOrder(Causally(), states)
  {
    if StrictWeakOrder(Causally(), states) {
      forall sorted | MaySort(Causally(), states, sorted) ensures EndsLate(states, sorted) {
        SortedEndsLate(states, sorted);
      }
    } else {
      var a, c := SomeOrderedPair(states);
      var rest := MovedToEnds(states, a);
      var sorted := rest + [a];
      assert MaySort(Causally(), states, sorted) && !EndsLate(states, sorted);
    }
  }

  lemma {:induction false} SomeOrderedPair(states: seq<ConflictingState>) returns (a: ConflictingState, c: ConflictingState)
    requires !StrictWeakOrder(Causally(), states)
    ensures a in states && c in states && HappensBefore(a.clock, c.clock)
  {
    if x, y :| x in states && y in states && Causally()(x, y) {
      a, c := x, y;
    }
  }

  /** On pairwise ordered clocks that state is the causally latest. */
  lemma {:induction false} BeforeNoneIsLatest(states: seq<ConflictingState>, s: ConflictingState)
    requires PairwiseOrdered(states)
    ensures BeforeNone(states, s) <==> IsCausallyLatest(states, s)
  {
  }

  ghost predicate IsCausallyLatest(states: seq<ConflictingState>, winner: ConflictingState) {
    winner in states && forall s | s in states :: s == winner || HappensBefore(s.clock, winner.clock)
  }

  ghost predicate CausalWinner(states: seq<ConflictingState>, winner: ConflictingState) {
    && winner in states
    && (StrictWeakOrder(Causally(), states) ==> BeforeNone(states, winner))
    && (PairwiseOrdered(states) ==> IsCausallyLatest(states, winner))
  }

  /**
   * The last state in causal order: one that happened before no other where sorting can find one, and on pairwise ordered
   * clocks the one all others happened before.
   */
  method causalStrategy(conflict: StateConflict) returns (resolved: Option<ResolvedState>)
    modifies conflict
    ensures MaySort(Causally(), old(conflict.states), conflict.states)
    ensures resolved.None? <==> old(conflict.states) == []
    ensures resolved.Some? ==>
              exists winner :: CausalWinner(old(conflict.states), winner)
                && resolved.value == ResolvedState(winner.state, winner.clock, "causal_order")
  {
    ghost var given := conflict.states;
    var sorted := SortSlice(conflict.states, Causally());
    conflict.states := sorted;
    SameMembers(sorted, given);
    if |sorted| == 0 {
      return None;
    }
    var winner := sorted[|sorted| - 1];
    if StrictWeakOrder(Causally(), given) {
      SortedEndsLate(given, sorted);
    }
    if PairwiseOrdered(given) {
      OrderedIsWeakOrder(given);
      BeforeNoneIsLatest(given, winner);
    }
    assert CausalWinner(given, winner);
    resolved := Some(ResolvedState(winner.state, winner.clock, "causal_order"));
  }

  /** The causally latest state is the only one, and its clock is what merging would give: nothing is lost by taking it. */
  lemma {:induction false} CausallyLatestIsJoin(states: seq<ConflictingState>, winner: ConflictingState, other: ConflictingState)
    requires IsCausallyLatest(states, winner)
    ensures winner.clock == JoinAll(states)
    ensures IsCausallyLatest(states, other) ==> other == winner
  {
    JoinIsLeastUpperBound(states, winner.clock);
    forall s | s in states ensures Within(s.clock, winner.clock) {
      WithinIsPartialOrder(winner.clock, winner.clock, winner.clock);
    }
    WithinIsPartialOrder(winner.clock, JoinAll(states), winner.clock);
    if IsCausallyLatest(states, other) {
      HappensBeforeIsStrictOrder(other.clock, winner.clock, other.clock);
    }
  }

  // ---- causal violations ---------------------------------------------------------------------

  /** On some node that both have heard of, the first is ahead. */
  ghost predicate AheadSomewhere(a: Clock, b: Clock) {
    exists node | node in a :: node in b && a[node] > b[node]
  }

  /** A clock is ahead exactly if its part on the nodes both know is not within the other one. */
  lemma {:induction false} OwnNodesDoNotCount(a: Clock, b: Clock)
    ensures var shared: Clock := map node | node in a && node in b :: a[node];
            AheadSomewhere(a, b) <==> !Within(shared, b)
  {
  }

  method areClocksCausallyConsistent(vc1: Clock, vc2: Clock) returns (consistent: bool)
    ensures consistent <==> !AheadSomewhere(vc1, vc2)
  {
    consistent := true;
    var todo := vc1.Keys;
    while todo != {}
      invariant todo <= vc1.Keys && consistent
      invariant forall node | node in vc1 && node !in todo :: !(node in vc2 && vc1[node] > vc2[node])
      decreases todo
    {
      var node :| node in todo;
      todo := todo - {node};
      if node in vc2 && vc1[node] > vc2[node] {
        consistent := false;
        break;
      }
    }
  }

  /** Some state is ahead of one that is listed after it. */
  ghost predicate CausalViolation(states: seq<ConflictingState>) {
    exists i, j | 0 <= i < j < |states| :: AheadSomewhere(states[i].clock, states[j].clock)
  }

  method hasCausalViolation(conflict: StateConflict) returns (violation: bool)
    ensures violation <==> CausalViolation(conflict.states)
  {
    var states := conflict.states;
    for i := 0 to |states|
      invariant forall k, l | 0 <= k < i && k < l < |states| :: !AheadSomewhere(states[k].clock, states[l].clock)
    {
      for j := i + 1 to |states|
        invariant forall l | i < l < j :: !AheadSomewhere(states[i].clock, states[l].clock)
      {
        var consistent := areClocksCausallyConsistent(states[i].clock, states[j].clock);
        if !consistent {
          return true;
        }
      }
    }
    violation := false;
  }

  /** Among pairwise ordered clocks there is no violation exactly when the states are listed in causal order. */
  lemma {:induction false} NoViolationMeansCausalOrder(states: seq<ConflictingState>)
    requires PairwiseOrdered(states)
    ensures !CausalViolation(states)
       <==> forall i, j | 0 <= i < j < |states| :: HappensBefore(states[i].clock, states[j].clock)
  {
  }

  /** In every nonempty selection of the states one is ahead of none in the selection, and so may be listed first. */
  ghost predicate Orderable(states: seq<ConflictingState>) {
    forall some: set<ConflictingState> | some != {} && some <= SetOf(states) :: MayComeFirst(some)
  }

  ghost predicate MayComeFirst(some: set<ConflictingState>) {
    exists s :: s in some && AheadOfNone(some, s)
  }

  ghost predicate AheadOfNone(some: set<ConflictingState>, s: ConflictingState) {
    forall t | t in some :: !AheadSomewhere(s.clock, t.clock)
  }

  lemma {:induction false} OrderableHasGoodOrder(states: seq<ConflictingState>) returns (xs: seq<ConflictingState>)
    requires Orderable(states)
    ensures SameStates(xs, states) && !CausalViolation(xs)
    decreases |states|
  {
    if states == [] {
      xs := [];
    } else {
      assert states[0] in SetOf(states);
      assert MayComeFirst(SetOf(states));
      var s :| s in SetOf(states) && AheadOfNone(SetOf(states), s);
      var rest := MovedToEnds(states, s);
      assert SetOf(rest) <= SetOf(states);
      var ys := OrderableHasGoodOrder(rest);
      SameMembers(ys, rest);
      xs := [s] + ys;
      assert multiset(xs) == multiset{s} + multiset(ys) == multiset([s] + rest);
    }
  }

  lemma {:induction false} GoodOrderIsOrderable(states: seq<ConflictingState>, xs: seq<ConflictingState>)
    requires SameStates(xs, states) && !CausalViolation(xs)
    ensures Orderable(states)
  {
    SameMembers(xs, states);
    forall some: set<ConflictingState> | some != {} && some <= SetOf(states) ensures MayComeFirst(some) {
      var s :| s in some;
      assert s in SetOf(states);
      var k :| 0 <= k < |xs| && xs[k] == s;
      var i := FirstIn(xs, some, k);
      forall t | t in some ensures !AheadSomewhere(xs[i].clock, t.clock) {
        assert t in SetOf(states);
        var j :| 0 <= j < |xs| && xs[j] == t;
      }
      assert AheadOfNone(some, xs[i]);
    }
  }

  lemma {:induction false} FirstIn(xs: seq<ConflictingState>, some: set<ConflictingState>, k: nat) returns (i: nat)
    requires k < |xs| && xs[k] in some
    ensures i < |xs| && xs[i] in some && forall j | 0 <= j < i :: xs[j] !in some
  {
    i := k;
    if j :| 0 <= j < k && xs[j] in some {
      i := FirstIn(xs, some, j);
    }
  }

  ghost predicate NoneAhead(states: seq<ConflictingState>) {
    forall s, t | s in states && t in states :: !AheadSomewhere(s.clock, t.clock)
  }

  /** Two states one of which is ahead of the other are a violation in some order. */
  lemma {:induction false} BadOrder(states: seq<ConflictingState>) returns (xs: seq<ConflictingState>)
    requires !NoneAhead(states)
    ensures SameStates(xs, states) && CausalViolation(xs)
  {
    var s, t :| s in states && t in states && AheadSomewhere(s.clock, t.clock);
    var rest := MovedToEnds(states, s);
    xs := [s] + rest;
    var j :| 0 <= j < |rest| && rest[j] == t;
    assert xs[0] == s && xs[j + 1] == t && AheadSomewhere(xs[0].clock, xs[j + 1].clock);
  }

  ghost predicate SameVerdict(states: seq<ConflictingState>) {
    forall xs, ys | SameStates(xs, states) && SameStates(ys, states) :: CausalViolation(xs) <==> CausalViolation(ys)
  }

  /** The verdict is the same for all orders exactly if no state is ahead of another, or if they cannot be ordered at all. */
  lemma {:induction false} VerdictIgnoresOrder(states: seq<ConflictingState>)
    ensures SameVerdict(states) <==> NoneAhead(states) || !Orderable(states)
  {
    if NoneAhead(states) {
      forall xs | SameStates(xs, states) ensures !CausalViolation(xs) {
        SameMembers(xs, states);
      }
    } else if Orderable(states) {
      var good := OrderableHasGoodOrder(states);
      var bad := BadOrder(states);
    } else {
      forall xs | SameStates(xs, states) ensures CausalViolation(xs) {
        if !CausalViolation(xs) {
          GoodOrderIsOrderable(states, xs);
        }
      }
    }
  }

  /** Such states: two that have seen a different number of events of one node. */
  lemma {:induction false} VerdictCanDependOnOrder(s: ConflictingState, t: ConflictingState, node: string)
    requires s.clock == map[node := 1] && t.clock == map[node := 2]
    ensures !CausalViolation([s, t]) && CausalViolation([t, s]) && !SameVerdict([s, t])
  {
    var xs, ys := [s, t], [t, s];
    assert node in t.clock && AheadSomewhere(ys[0].clock, ys[1].clock);
    assert SameStates(xs, [s, t]) && SameStates(ys, [s, t]);
  }
}
