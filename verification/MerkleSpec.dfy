/** Merkle roots and proofs as functions of the leaf list: the reference the pointer tree is proved against. */
module MerkleSpec {
  import opened Types

  // ---- roots ---------------------------------------------------------------------------------

  /** The right partner of the i-th pair; the last node is its own partner on a level of odd length. */
  function RightIndex(n: nat, i: nat): nat
    requires 2 * i < n
  {
    if 2 * i + 1 < n then 2 * i + 1 else 2 * i
  }

  /** The bytes hashed for the i-th node of the level above. */
  function PairInput(level: seq<Hash>, i: nat): (bytes: seq<byte>)
    requires 2 * i < |level|
    ensures |bytes| == 64
  {
    var left: seq<byte>, right: seq<byte> := level[2 * i], level[RightIndex(|level|, i)];
    left + right
  }

  function NextLevel(H: HashFn, level: seq<Hash>): seq<Hash> {
    seq<Hash>((|level| + 1) / 2, i requires 0 <= i < (|level| + 1) / 2 => H(PairInput(level, i)))
  }

  function TreeRoot(H: HashFn, level: seq<Hash>): Hash
    requires level != []
    decreases |level|
  {
    if |level| == 1 then level[0] else TreeRoot(H, NextLevel(H, level))
  }

  /** Each node of the next level hashes 64 bytes: its left child, then its right one, or the left one again at an odd end. */
  lemma {:induction false} NodeOfNextLevel(H: HashFn, level: seq<Hash>, i: nat, bytes: seq<byte>)
    requires 2 * i < |level| && |bytes| == 64 && bytes[..32] == level[2 * i]
    requires bytes[32..] == if 2 * i + 1 < |level| then level[2 * i + 1] else level[2 * i]
    ensures |NextLevel(H, level)| == |level| / 2 + |level| % 2 && NextLevel(H, level)[i] == H(bytes)
  {
    assert bytes == bytes[..32] + bytes[32..];
    assert PairInput(level, i) == bytes;
  }

  /** The roots of one, two and three leaves. */
  lemma {:induction false} SmallRoots(H: HashFn, a: Hash, b: Hash, c: Hash, ab: seq<byte>, cc: seq<byte>, top: seq<byte>)
    requires |ab| == |cc| == |top| == 64 && ab[..32] == a && ab[32..] == b && cc[..32] == cc[32..] == c
    requires top[..32] == H(ab) && top[32..] == H(cc)
    ensures TreeRoot(H, [a]) == a && TreeRoot(H, [a, b]) == H(ab) && TreeRoot(H, [a, b, c]) == H(top)
  {
    NodeOfNextLevel(H, [a, b], 0, ab);
    NodeOfNextLevel(H, [a, b, c], 0, ab);
    NodeOfNextLevel(H, [a, b, c], 1, cc);
    var two := NextLevel(H, [a, b, c]);
    NodeOfNextLevel(H, two, 0, top);
    assert NextLevel(H, [a, b]) == [H(ab)] && NextLevel(H, two) == [H(top)];
    assert TreeRoot(H, [a, b, c]) == TreeRoot(H, two) == TreeRoot(H, [H(top)]);
  }

  /** Every input hashed between the leaves and the root. */
  ghost function TreeInputs(H: HashFn, level: seq<Hash>): set<seq<byte>>
    decreases |level|
  {
    if |level| <= 1 then {} else LevelInputs(level) + TreeInputs(H, NextLevel(H, level))
  }

  ghost function LevelInputs(level: seq<Hash>): set<seq<byte>> {
    set i | 0 <= i < (|level| + 1) / 2 :: PairInput(level, i)
  }

  /** x from xs and y from ys are a hash collision. */
  ghost predicate Collides(H: HashFn, xs: set<seq<byte>>, ys: set<seq<byte>>) {
    exists x, y :: x in xs && y in ys && x != y && H(x) == H(y)
  }

  /** Two different levels of the same length give different levels above them, or a collision. */
  lemma {:induction false} LevelBinding(H: HashFn, a: seq<Hash>, b: seq<Hash>)
    requires |a| == |b| > 1 && a != b && NextLevel(H, a) == NextLevel(H, b)
    ensures Collides(H, LevelInputs(a), LevelInputs(b))
  {
    var i :| 0 <= i < |a| && a[i] != b[i];
    var x, y := PairInput(a, i / 2), PairInput(b, i / 2);
    if x == y {
      var j := i / 2;
      SplitEqual(a[2 * j], a[RightIndex(|a|, j)], b[2 * j], b[RightIndex(|a|, j)]);
      assert false;
    }
    assert H(x) == NextLevel(H, a)[i / 2] == NextLevel(H, b)[i / 2] == H(y);
    assert x in LevelInputs(a) && y in LevelInputs(b);
  }

  /** Root binding: lists of equal length with equal roots are equal, or building the two trees hits a collision. */
  lemma {:induction false} RootBinding(H: HashFn, a: seq<Hash>, b: seq<Hash>)
    requires |a| == |b| > 0 && TreeRoot(H, a) == TreeRoot(H, b)
    ensures a == b || Collides(H, TreeInputs(H, a), TreeInputs(H, b))
    decreases |a|
  {
    if |a| > 1 && a != b {
      var a', b' := NextLevel(H, a), NextLevel(H, b);
      if a' == b' {
        LevelBinding(H, a, b);
        var x, y :| x in LevelInputs(a) && y in LevelInputs(b) && x != y && H(x) == H(y);
        assert x in TreeInputs(H, a) && y in TreeInputs(H, b);
      } else {
        RootBinding(H, a', b');
        var x, y :| x in TreeInputs(H, a') && y in TreeInputs(H, b') && x != y && H(x) == H(y);
        assert x in TreeInputs(H, a) && y in TreeInputs(H, b);
      }
    }
  }

  /** Equal length is needed: a list of odd length above one has the root of the list with its last leaf repeated. */
  lemma {:induction false} RepeatedLastLeaf(H: HashFn, leaves: seq<Hash>)
    requires |leaves| >= 3 && |leaves| % 2 == 1
    ensures TreeRoot(H, leaves + [leaves[|leaves| - 1]]) == TreeRoot(H, leaves)
  {
    var longer := leaves + [leaves[|leaves| - 1]];
    forall i | 0 <= i < (|leaves| + 1) / 2 ensures PairInput(longer, i) == PairInput(leaves, i) {}
    assert NextLevel(H, longer) == NextLevel(H, leaves);
  }

  // ---- proofs --------------------------------------------------------------------------------

  /** The side of the sibling. */
  datatype Position = Left | Right

  datatype ProofNode = ProofNode(hash: Hash, position: Position, isLeaf: bool)

  datatype MerkleProof = MerkleProof(path: seq<ProofNode>, root: Hash)

  /** The bytes hashed when one step of a path is taken from h. */
  function StepInput(h: Hash, node: ProofNode): (bytes: seq<byte>)
    ensures |bytes| == 64
  {
    if node.position == Left then node.hash + h else h + node.hash
  }

  /** The hash a path leads to from h. */
  function Fold(H: HashFn, h: Hash, path: seq<ProofNode>): Hash
    decreases |path|
  {
    if path == [] then h else Fold(H, H(StepInput(h, path[0])), path[1..])
  }

  predicate Accepts(H: HashFn, proof: MerkleProof, key: seq<byte>, value: seq<byte>) {
    Fold(H, H(key + value), proof.path) == proof.root
  }

  /** Proof checking as the code does it, one step after the other. */
  method Verify(H: HashFn, proof: MerkleProof, key: seq<byte>, value: seq<byte>) returns (ok: bool)
    ensures ok <==> Accepts(H, proof, key, value)
  {
    var current := H(key + value);
    for i := 0 to |proof.path|
      invariant Fold(H, current, proof.path[i..]) == Fold(H, H(key + value), proof.path)
    {
      var node := proof.path[i];
      if node.position == Left {
        current := H(node.hash + current);
      } else {
        current := H(current + node.hash);
      }
      assert proof.path[i..][1..] == proof.path[i + 1..];
    }
    ok := current == proof.root;
  }

  /** What the shortest proofs are accepted for: the hash of key and value, alone or with a sibling on the side named. */
  lemma {:induction false} ShortProofs(H: HashFn, sibling: Hash, leaf: bool, root: Hash, key: seq<byte>, value: seq<byte>)
    ensures Accepts(H, MerkleProof([], root), key, value) <==> root == H(key + value)
    ensures var s: seq<byte>, h: seq<byte> := sibling, H(key + value);
            && (Accepts(H, MerkleProof([ProofNode(sibling, Left, leaf)], root), key, value) <==> root == H(s + h))
            && (Accepts(H, MerkleProof([ProofNode(sibling, Right, leaf)], root), key, value) <==> root == H(h + s))
  {
    var none: seq<ProofNode> := [];
    forall node: ProofNode, h: Hash ensures Fold(H, h, [node]) == H(StepInput(h, node)) {
      assert [node][1..] == none;
    }
  }

  /** A proof does not tell where the key ends and the value begins. */
  lemma {:induction false} BoundaryIsOpen(H: HashFn, proof: MerkleProof, key: seq<byte>, value: seq<byte>)
    ensures Accepts(H, proof, key, value) <==> Accepts(H, proof, key + value, [])
  {
    assert key + value + [] == key + value;
  }

  ghost function FoldInputs(H: HashFn, h: Hash, path: seq<ProofNode>): set<seq<byte>>
    decreases |path|
  {
    if path == [] then {} else {StepInput(h, path[0])} + FoldInputs(H, H(StepInput(h, path[0])), path[1..])
  }

  /** Every input hashed when the proof is checked for key and value. */
  ghost function ProofInputs(H: HashFn, key: seq<byte>, value: seq<byte>, path: seq<ProofNode>): set<seq<byte>> {
    {key + value} + FoldInputs(H, H(key + value), path)
  }

  ghost predicate SamePositions(p: seq<ProofNode>, q: seq<ProofNode>) {
    |p| == |q| && forall i | 0 <= i < |p| :: p[i].position == q[i].position
  }

  ghost predicate SameHashes(p: seq<ProofNode>, q: seq<ProofNode>) {
    |p| == |q| && forall i | 0 <= i < |p| :: p[i].hash == q[i].hash
  }

  /** From two starting points along equal positions to the same end: the same point and siblings, or a collision. */
  lemma {:induction false} FoldBinding(H: HashFn, h: Hash, p: seq<ProofNode>, g: Hash, q: seq<ProofNode>)
    requires SamePositions(p, q) && Fold(H, h, p) == Fold(H, g, q)
    ensures (h == g && SameHashes(p, q)) || Collides(H, FoldInputs(H, h, p), FoldInputs(H, g, q))
    decreases |p|
  {
    if p != [] {
      var x, y := StepInput(h, p[0]), StepInput(g, q[0]);
      FoldBinding(H, H(x), p[1..], H(y), q[1..]);
      if Collides(H, FoldInputs(H, H(x), p[1..]), FoldInputs(H, H(y), q[1..])) {
        var u, v :| u in FoldInputs(H, H(x), p[1..]) && v in FoldInputs(H, H(y), q[1..]) && u != v && H(u) == H(v);
        assert u in FoldInputs(H, h, p) && v in FoldInputs(H, g, q);
      } else if x != y {
        assert x in FoldInputs(H, h, p) && y in FoldInputs(H, g, q);
      } else {
        if p[0].position == Left {
          SplitEqual(p[0].hash, h, q[0].hash, g);
        } else {
          SplitEqual(h, p[0].hash, g, q[0].hash);
        }
        forall i | 0 <= i < |p| ensures p[i].hash == q[i].hash {
          assert i > 0 ==> p[1..][i - 1].hash == q[1..][i - 1].hash;
        }
      }
    }
  }

  /** Proof binding: two accepted proofs with the same root and positions prove the same bytes, or there is a collision. */
  lemma {:induction false} ProofBinding(H: HashFn, p: MerkleProof, key: seq<byte>, value: seq<byte>,
                                        q: MerkleProof, key': seq<byte>, value': seq<byte>)
    requires p.root == q.root && SamePositions(p.path, q.path)
    requires Accepts(H, p, key, value) && Accepts(H, q, key', value')
    ensures (key + value == key' + value' && SameHashes(p.path, q.path))
            || Collides(H, ProofInputs(H, key, value, p.path), ProofInputs(H, key', value', q.path))
  {
    var x, y := key + value, key' + value';
    var xs, ys := ProofInputs(H, key, value, p.path), ProofInputs(H, key', value', q.path);
    FoldBinding(H, H(x), p.path, H(y), q.path);
    if Collides(H, FoldInputs(H, H(x), p.path), FoldInputs(H, H(y), q.path)) {
      var u, v :| u in FoldInputs(H, H(x), p.path) && v in FoldInputs(H, H(y), q.path) && u != v && H(u) == H(v);
      assert u in xs && v in ys;
    } else if x != y {
      assert x in xs && y in ys;
    }
  }

  // ---- authentication paths ------------------------------------------------------------------

  /** The sibling of position i on a level, and the side it is on. */
  function Sibling(level: seq<Hash>, i: nat): ProofNode
    requires i < |level|
  {
    if i % 2 == 0 then ProofNode(level[RightIndex(|level|, i / 2)], Right, false)
    else ProofNode(level[i - 1], Left, false)
  }

  /** The siblings met on the way from position i of a level to the root. */
  function AuthPath(H: HashFn, level: seq<Hash>, i: nat): seq<ProofNode>
    requires i < |level|
    decreases |level|
  {
    if |level| == 1 then [] else [Sibling(level, i)] + AuthPath(H, NextLevel(H, level), i / 2)
  }

  ghost predicate SameSteps(p: seq<ProofNode>, q: seq<ProofNode>) {
    SamePositions(p, q) && SameHashes(p, q)
  }

  /** The path leads from an occurrence of h, on this level or one above it, along the tree to the root. */
  ghost predicate PathIn(H: HashFn, level: seq<Hash>, h: Hash, path: seq<ProofNode>)
    requires level != []
    decreases |level|
  {
    || (exists i :: 0 <= i < |level| && level[i] == h && SameSteps(path, AuthPath(H, level, i)))
    || (|level| > 1 && PathIn(H, NextLevel(H, level), h, path))
  }

  lemma {:induction false} SameStepsFold(H: HashFn, h: Hash, p: seq<ProofNode>, q: seq<ProofNode>)
    requires SameSteps(p, q)
    ensures Fold(H, h, p) == Fold(H, h, q)
    decreases |p|
  {
    if p != [] {
      SameStepsFold(H, H(StepInput(h, p[0])), p[1..], q[1..]);
    }
  }

  lemma {:induction false} AuthPathReachesRoot(H: HashFn, level: seq<Hash>, i: nat)
    requires i < |level|
    ensures Fold(H, level[i], AuthPath(H, level, i)) == TreeRoot(H, level)
    decreases |level|
  {
    if |level| > 1 {
      var path := AuthPath(H, level, i);
      assert StepInput(level[i], path[0]) == PairInput(level, i / 2);
      assert path[1..] == AuthPath(H, NextLevel(H, level), i / 2);
      AuthPathReachesRoot(H, NextLevel(H, level), i / 2);
    }
  }

  /** Any path of the tree leads to the root. */
  lemma {:induction false} PathReachesRoot(H: HashFn, level: seq<Hash>, h: Hash, path: seq<ProofNode>)
    requires level != [] && PathIn(H, level, h, path)
    ensures Fold(H, h, path) == TreeRoot(H, level)
    decreases |level|
  {
    if i :| 0 <= i < |level| && level[i] == h && SameSteps(path, AuthPath(H, level, i)) {
      AuthPathReachesRoot(H, level, i);
      SameStepsFold(H, h, path, AuthPath(H, level, i));
    } else {
      PathReachesRoot(H, NextLevel(H, level), h, path);
    }
  }

  /** The proof a tree hands out for a key is accepted for that key and no value, if and only if its root is the tree's. */
  lemma {:induction false} ProofRoundTrip(H: HashFn, leaves: seq<Hash>, key: seq<byte>, proof: MerkleProof)
    requires leaves != [] && PathIn(H, leaves, H(key), proof.path)
    ensures Accepts(H, proof, key, []) <==> proof.root == TreeRoot(H, leaves)
  {
    assert key + [] == key;
    PathReachesRoot(H, leaves, H(key), proof.path);
  }

  /** A proof of the tree that is also accepted with some value is a collision: of the key with key and value, or above. */
  lemma {:induction false} ProofOfValueCollides(H: HashFn, leaves: seq<Hash>, key: seq<byte>, value: seq<byte>, proof: MerkleProof)
    requires leaves != [] && PathIn(H, leaves, H(key), proof.path) && proof.root == TreeRoot(H, leaves)
    requires value != [] && Accepts(H, proof, key, value)
    ensures Collides(H, ProofInputs(H, key, [], proof.path), ProofInputs(H, key, value, proof.path))
  {
    ProofRoundTrip(H, leaves, key, proof);
    ProofBinding(H, proof, key, [], proof, key, value);
    assert |key + value| > |key + []|;
  }

  // ---- depth ---------------------------------------------------------------------------------

  /** The number of levels above n leaves. */
  function Depth(n: nat): nat {
    if n <= 1 then 0 else 1 + Depth((n + 1) / 2)
  }

  lemma {:induction false} DepthIsLogarithmic(n: nat)
    requires n >= 2
    ensures Depth(n) >= 1 && Pow2(Depth(n) - 1) < n <= Pow2(Depth(n))
  {
    if n > 2 {
      DepthIsLogarithmic((n + 1) / 2);
    }
  }

  /** h is one of the hashes computed above this level. */
  ghost predicate IsInnerHash(H: HashFn, level: seq<Hash>, h: Hash)
    decreases |level|
  {
    |level| > 1 && (h in NextLevel(H, level) || IsInnerHash(H, NextLevel(H, level), h))
  }

  lemma {:induction false} AuthPathLength(H: HashFn, level: seq<Hash>, i: nat)
    requires i < |level|
    ensures |AuthPath(H, level, i)| == Depth(|level|)
    decreases |level|
  {
    if |level| > 1 {
      AuthPathLength(H, NextLevel(H, level), i / 2);
    }
  }

  lemma {:induction false} NotInnerNotAbove(H: HashFn, level: seq<Hash>, h: Hash, path: seq<ProofNode>)
    requires level != [] && PathIn(H, level, h, path)
    ensures h in level || IsInnerHash(H, level, h)
    decreases |level|
  {
    if h !in level {
      NotInnerNotAbove(H, NextLevel(H, level), h, path);
    }
  }

  /** When the key's hash is no inner hash, the path has length d with 2^(d-1) < n <= 2^d. */
  lemma {:induction false} PathLength(H: HashFn, leaves: seq<Hash>, h: Hash, path: seq<ProofNode>)
    requires |leaves| >= 2 && PathIn(H, leaves, h, path) && !IsInnerHash(H, leaves, h)
    ensures |path| == Depth(|leaves|) && Pow2(|path| - 1) < |leaves| <= Pow2(|path|)
  {
    hide AuthPath, Depth, Pow2;
    DepthIsLogarithmic(|leaves|);
    if PathIn(H, NextLevel(H, leaves), h, path) {
      NotInnerNotAbove(H, NextLevel(H, leaves), h, path);
      assert false;
    }
    var i :| 0 <= i < |leaves| && leaves[i] == h && SameSteps(path, AuthPath(H, leaves, i));
    AuthPathLength(H, leaves, i);
  }

  /** An accepted proof that follows the positions of leaf i proves the leaf itself, or there is a collision. */
  lemma {:induction false} ProofSoundness(H: HashFn, leaves: seq<Hash>, i: nat, key: seq<byte>, value: seq<byte>,
                                          path: seq<ProofNode>)
    requires i < |leaves| && SamePositions(path, AuthPath(H, leaves, i))
    requires Accepts(H, MerkleProof(path, TreeRoot(H, leaves)), key, value)
    ensures H(key + value) == leaves[i]
            || Collides(H, FoldInputs(H, H(key + value), path), FoldInputs(H, leaves[i], AuthPath(H, leaves, i)))
  {
    AuthPathReachesRoot(H, leaves, i);
    FoldBinding(H, H(key + value), path, leaves[i], AuthPath(H, leaves, i));
  }

  // ---- appending and rolling back ------------------------------------------------------------

  /** The leaf list and the root of a tree. */
  datatype TreeState = TreeState(leaves: seq<Hash>, root: Hash)

  function Appended(H: HashFn, s: TreeState, leaf: Hash): TreeState {
    TreeState(s.leaves + [leaf], TreeRoot(H, s.leaves + [leaf]))
  }

  /** Dropping the last leaf; None when its hash is also an earlier leaf, whose node would then be missing. */
  function RolledBack(H: HashFn, s: TreeState): Option<TreeState> {
    if s.leaves == [] then Some(s)
    else
      var rest, last := s.leaves[..|s.leaves| - 1], s.leaves[|s.leaves| - 1];
      if last in rest then None
      else Some(TreeState(rest, if rest == [] then s.root else TreeRoot(H, rest)))
  }

  /**
   * A rollback undoes an append exactly when the leaf is new and the root was current. For an empty tree "current"
   * cannot be: the rollback leaves the appended leaf behind as root.
   */
  lemma {:induction false} UndoLaw(H: HashFn, s: TreeState, leaf: Hash)
    ensures RolledBack(H, Appended(H, s, leaf)) == Some(s) <==>
            leaf !in s.leaves && s.root == (if s.leaves == [] then leaf else TreeRoot(H, s.leaves))
    ensures RolledBack(H, Appended(H, s, leaf)) == None <==> leaf in s.leaves
  {
  }

  /**
   * Rolling back from two leaves to one keeps the parent pointer of the remaining leaf, so its proof still runs through
   * the old root; it is accepted against the new root only if the two roots coincide.
   */
  lemma {:induction false} ProofAfterRollbackToOne(H: HashFn, leaf: Hash, dropped: Hash, key: seq<byte>,
                                                   path: seq<ProofNode>)
    requires H(key) == leaf && PathIn(H, [leaf, dropped], leaf, path)
    ensures Accepts(H, MerkleProof(path, TreeRoot(H, [leaf])), key, []) <==> H(PairInput([leaf, dropped], 0)) == leaf
  {
    ProofRoundTrip(H, [leaf, dropped], key, MerkleProof(path, leaf));
    assert NextLevel(H, [leaf, dropped]) == [H(PairInput([leaf, dropped], 0))];
  }
}
