/** When lists of different lengths have the same root: as far as the root goes, every list is padded to a power of two. */
module MerklePadding {
  import opened Types
  import opened MerkleSpec

  predicate AllBelow(positions: seq<nat>, n: nat) {
    forall i | 0 <= i < |positions| :: positions[i] < n
  }

  /** The positions, on a level of n nodes, below the given positions of the level above. */
  function Below(n: nat, above: seq<nat>): (positions: seq<nat>)
    requires AllBelow(above, (n + 1) / 2)
    ensures |positions| == 2 * |above| && AllBelow(positions, n)
  {
    seq<nat>(2 * |above|, m requires 0 <= m < 2 * |above| =>
               if m % 2 == 0 then 2 * above[m / 2] else RightIndex(n, above[m / 2]))
  }

  /** Which of n leaves the tree uses, from left to right, with the repetitions that odd levels bring about. */
  function Used(n: nat): (positions: seq<nat>)
    requires n > 0
    ensures |positions| == Pow2(Depth(n)) && AllBelow(positions, n)
  {
    if n == 1 then [0] else Below(n, Used((n + 1) / 2))
  }

  function Pick(level: seq<Hash>, positions: seq<nat>): (picked: seq<Hash>)
    requires AllBelow(positions, |level|)
    ensures |picked| == |positions|
  {
    seq<Hash>(|positions|, m requires 0 <= m < |positions| => level[positions[m]])
  }

  /** The leaves as the tree uses them. */
  function Padded(leaves: seq<Hash>): (padded: seq<Hash>)
    requires leaves != []
    ensures |padded| == Pow2(Depth(|leaves|)) && padded != []
  {
    Pick(leaves, Used(|leaves|))
  }

  lemma {:induction false} PickBelowInput(level: seq<Hash>, above: seq<nat>, m: nat)
    requires m < |above| && AllBelow(above, (|level| + 1) / 2)
    ensures PairInput(Pick(level, Below(|level|, above)), m) == PairInput(level, above[m])
  {
  }

  lemma {:induction false} UsedFromAbove(n: nat)
    requires n > 1
    ensures Used(n) == Below(n, Used((n + 1) / 2))
  {
  }

  /** Padding commutes with going up one level. */
  lemma {:induction false} NextLevelOfPadded(H: HashFn, leaves: seq<Hash>)
    requires |leaves| > 1
    ensures NextLevel(H, Padded(leaves)) == Padded(NextLevel(H, leaves))
    ensures LevelInputs(Padded(leaves)) <= LevelInputs(leaves)
  {
    hide Used, Depth, Pow2, Below;
    var up := NextLevel(H, leaves);
    var above, padded := Used(|up|), Padded(leaves);
    UsedFromAbove(|leaves|);
    forall m | 0 <= m < |above| ensures PairInput(padded, m) == PairInput(leaves, above[m]) {
      PickBelowInput(leaves, above, m);
    }
    forall x | x in LevelInputs(padded) ensures x in LevelInputs(leaves) {
      var m :| 0 <= m < (|padded| + 1) / 2 && x == PairInput(padded, m);
      assert 0 <= above[m] < (|leaves| + 1) / 2;
    }
  }

  /** The padded list has the same root, and computing it hashes nothing new. */
  lemma {:induction false} PaddedRoot(H: HashFn, leaves: seq<Hash>)
    requires leaves != []
    ensures TreeRoot(H, Padded(leaves)) == TreeRoot(H, leaves)
    ensures TreeInputs(H, Padded(leaves)) <= TreeInputs(H, leaves)
    decreases |leaves|
  {
    if |leaves| == 1 {
      assert Padded(leaves) == leaves;
    } else {
      NextLevelOfPadded(H, leaves);
      PaddedRoot(H, NextLevel(H, leaves));
    }
  }

  /** Root binding for trees of equal depth: the roots agree exactly if the padded lists do, or a collision was hashed. */
  lemma {:induction false} EqualDepthBinding(H: HashFn, a: seq<Hash>, b: seq<Hash>)
    requires a != [] && b != [] && Depth(|a|) == Depth(|b|)
    ensures Padded(a) == Padded(b) ==> TreeRoot(H, a) == TreeRoot(H, b)
    ensures TreeRoot(H, a) == TreeRoot(H, b) ==>
              Padded(a) == Padded(b) || Collides(H, TreeInputs(H, a), TreeInputs(H, b))
  {
    hide TreeRoot, TreeInputs, Depth, Padded;
    PaddedRoot(H, a);
    PaddedRoot(H, b);
    if TreeRoot(H, a) == TreeRoot(H, b) && Padded(a) != Padded(b) {
      RootBinding(H, Padded(a), Padded(b));
      var x, y :| x in TreeInputs(H, Padded(a)) && y in TreeInputs(H, Padded(b)) && x != y && H(x) == H(y);
      assert x in TreeInputs(H, a) && y in TreeInputs(H, b);
    }
  }

  /** The level k steps above the leaves. */
  function LevelAbove(H: HashFn, leaves: seq<Hash>, k: nat): (level: seq<Hash>)
    requires leaves != [] && k <= Depth(|leaves|)
    ensures level != []
    decreases k
  {
    if k == 0 then leaves else LevelAbove(H, NextLevel(H, leaves), k - 1)
  }

  lemma {:induction false} RootOfLevelAbove(H: HashFn, leaves: seq<Hash>, k: nat)
    requires leaves != [] && k <= Depth(|leaves|)
    ensures TreeRoot(H, LevelAbove(H, leaves, k)) == TreeRoot(H, leaves)
    ensures Depth(|LevelAbove(H, leaves, k)|) == Depth(|leaves|) - k
    ensures TreeInputs(H, LevelAbove(H, leaves, k)) <= TreeInputs(H, leaves)
    decreases k
  {
    if k > 0 {
      RootOfLevelAbove(H, NextLevel(H, leaves), k - 1);
    }
  }

  /**
   * Root binding for any two trees: the deeper one has the root of the other exactly if its level of the same depth pads to
   * the same list, or a collision was hashed. So a list can share its root with the levels above it.
   */
  lemma {:induction false} AnyDepthBinding(H: HashFn, a: seq<Hash>, b: seq<Hash>)
    requires a != [] && b != [] && Depth(|a|) >= Depth(|b|)
    ensures var level := LevelAbove(H, a, Depth(|a|) - Depth(|b|));
            && (Padded(level) == Padded(b) ==> TreeRoot(H, a) == TreeRoot(H, b))
            && (TreeRoot(H, a) == TreeRoot(H, b) ==>
                  Padded(level) == Padded(b) || Collides(H, TreeInputs(H, a), TreeInputs(H, b)))
  {
    hide TreeRoot, TreeInputs, Depth, LevelAbove, Padded;
    var k := Depth(|a|) - Depth(|b|);
    var level := LevelAbove(H, a, k);
    RootOfLevelAbove(H, a, k);
    EqualDepthBinding(H, level, b);
    if Collides(H, TreeInputs(H, level), TreeInputs(H, b)) {
      var x, y :| x in TreeInputs(H, level) && y in TreeInputs(H, b) && x != y && H(x) == H(y);
      assert x in TreeInputs(H, a);
    }
  }
}
