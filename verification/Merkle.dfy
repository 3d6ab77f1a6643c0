/** The Merkle tree builder and prover (`names-test.hoon`) against the verifier's fold
    and the settlement gate (`app.hoon`). */
module Merkle {
  import opened Prelude
  import opened Predicates

  /** The Tip5 leaf and pair hashes and `jam`; nothing is assumed of them. */
  datatype Hashes = Hashes(leaf: nat -> nat, pair: (nat, nat) -> nat, jam: (nat, nat, nat) -> nat)

  /** A sibling, and whether it stands on the left. */
  type Proof = seq<(nat, bool)>

  function Nth(lst: seq<nat>, i: nat): Option<nat> {
    if i < |lst| then Some(lst[i]) else None
  }

  function NextLevel(hs: Hashes, level: seq<nat>): (r: seq<nat>)
    ensures |r| == (|level| + 1) / 2
  {
    if level == [] then []
    else if |level| == 1 then [hs.pair(level[0], level[0])]
    else [hs.pair(level[0], level[1])] + NextLevel(hs, level[2..])
  }

  function RootOf(hs: Hashes, level: seq<nat>): nat
    requires level != []
    decreases |level|
  {
    if |level| == 1 then level[0] else RootOf(hs, NextLevel(hs, level))
  }

  function HashLeaves(hs: Hashes, leaves: seq<nat>): (r: seq<nat>)
    ensures |r| == |leaves| && forall i :: 0 <= i < |leaves| ==> r[i] == hs.leaf(leaves[i])
  {
    seq(|leaves|, i requires 0 <= i < |leaves| => hs.leaf(leaves[i]))
  }

  function ComputeRoot(hs: Hashes, leaves: seq<nat>): nat {
    if leaves == [] then 0 else RootOf(hs, HashLeaves(hs, leaves))
  }

  function Reverse(p: Proof): Proof {
    if p == [] then [] else Reverse(p[1..]) + [p[0]]
  }

  /** Climb from position `i` of `level`, collecting siblings; `None` is a crash in `nth`. */
  function Climb(hs: Hashes, level: seq<nat>, i: nat, acc: Proof): Option<Proof>
    decreases |level|
  {
    if |level| == 1 then Some(Reverse(acc))
    else
      var sibling := if i % 2 == 0 then i + 1 else i - 1;
      var sib :- if sibling < |level| then Nth(level, sibling) else Nth(level, i);
      Climb(hs, NextLevel(hs, level), i / 2, [(sib, i % 2 == 1)] + acc)
  }

  function ProofFor(hs: Hashes, leaves: seq<nat>, idx: nat): Option<Proof> {
    Climb(hs, HashLeaves(hs, leaves), idx, [])
  }

  /** The verifier's fold from a leaf hash. */
  function Fold(hs: Hashes, cur: nat, proof: Proof): nat
    decreases proof
  {
    if proof == [] then cur
    else Fold(hs, if proof[0].1 then hs.pair(proof[0].0, cur) else hs.pair(cur, proof[0].0), proof[1..])
  }

  predicate VerifyChunk(hs: Hashes, chunk: nat, proof: Proof, root: nat) {
    Fold(hs, hs.leaf(chunk), proof) == root
  }

  lemma {:induction false} NextLevelAt(hs: Hashes, level: seq<nat>, j: nat)
    requires 2 * j < |level|
    ensures NextLevel(hs, level)[j] ==
            hs.pair(level[2 * j], if 2 * j + 1 < |level| then level[2 * j + 1] else level[2 * j])
    decreases j
  {
    if j > 0 {
      NextLevelAt(hs, level[2..], j - 1);
    }
  }

  lemma ClimbComplete(hs: Hashes, level: seq<nat>, i: nat, acc: Proof) returns (path: Proof)
    requires i < |level|
    ensures Climb(hs, level, i, acc) == Some(Reverse(acc) + path)
    ensures Fold(hs, level[i], path) == RootOf(hs, level)
    decreases |level|
  {
    if |level| == 1 {
      path := [];
      assert Reverse(acc) + [] == Reverse(acc);
    } else {
      var sibling := if i % 2 == 0 then i + 1 else i - 1;
      var node := (if sibling < |level| then level[sibling] else level[i], i % 2 == 1);
      var rest := ClimbComplete(hs, NextLevel(hs, level), i / 2, [node] + acc);
      NextLevelAt(hs, level, i / 2);
      assert ([node] + acc)[1..] == acc;
      path := [node] + rest;
      assert path[1..] == rest;
      assert Reverse(acc) + [node] + rest == Reverse(acc) + path;
    }
  }

  /** Step `k` of the climb from position `i`: the sibling in that level, or the node itself
      where there is none, and whether it stands on the left. */
  ghost predicate Climbs(hs: Hashes, level: seq<nat>, i: nat, path: Proof)
    decreases |level|
  {
    if |level| <= 1 then path == []
    else
      && path != [] && i < |level|
      && (i % 2 == 1 ==> path[0] == (level[i - 1], true))
      && (i % 2 == 0 && i + 1 < |level| ==> path[0] == (level[i + 1], false))
      && (i % 2 == 0 && i + 1 == |level| ==> path[0] == (level[i], false))
      && Climbs(hs, NextLevel(hs, level), i / 2, path[1..])
  }

  lemma ClimbIs(hs: Hashes, level: seq<nat>, i: nat, acc: Proof) returns (path: Proof)
    requires i < |level|
    ensures Climb(hs, level, i, acc) == Some(Reverse(acc) + path) && Climbs(hs, level, i, path)
    decreases |level|
  {
    if |level| == 1 {
      path := [];
      assert Reverse(acc) + [] == Reverse(acc);
    } else {
      var sibling := if i % 2 == 0 then i + 1 else i - 1;
      var node := (if sibling < |level| then level[sibling] else level[i], i % 2 == 1);
      var rest := ClimbIs(hs, NextLevel(hs, level), i / 2, [node] + acc);
      assert ([node] + acc)[1..] == acc;
      path := [node] + rest;
      assert path[1..] == rest;
      assert Reverse(acc) + [node] + rest == Reverse(acc) + path;
    }
  }

  /** The prover's path is the siblings of the nodes over a leaf, bottom to top. */
  lemma {:induction false} ProofClimbs(hs: Hashes, leaves: seq<nat>, idx: nat)
    requires idx < |leaves|
    ensures ProofFor(hs, leaves, idx).Some?
    ensures Climbs(hs, HashLeaves(hs, leaves), idx, ProofFor(hs, leaves, idx).value)
  {
    var path := ClimbIs(hs, HashLeaves(hs, leaves), idx, []);
    assert Reverse([]) + path == path;
  }

  /** Two leaves: the root hashes the left one first, and each is the other's sibling. */
  lemma TwoLeaves(hs: Hashes, a: nat, b: nat)
    ensures ComputeRoot(hs, [a, b]) == hs.pair(hs.leaf(a), hs.leaf(b))
    ensures ProofFor(hs, [a, b], 0) == Some([(hs.leaf(b), false)])
    ensures ProofFor(hs, [a, b], 1) == Some([(hs.leaf(a), true)])
  {
    var level := HashLeaves(hs, [a, b]);
    assert level == [hs.leaf(a), hs.leaf(b)];
    assert level[2..] == [] && NextLevel(hs, level) == [hs.pair(level[0], level[1])];
    assert RootOf(hs, level) == RootOf(hs, NextLevel(hs, level)) == hs.pair(level[0], level[1]);
    var up := NextLevel(hs, level);
    var x: Proof, y: Proof := [(level[1], false)], [(level[0], true)];
    assert x + [] == x && y + [] == y;
    assert Climb(hs, level, 0, []) == Climb(hs, up, 0, x) == Some(Reverse(x));
    assert Climb(hs, level, 1, []) == Climb(hs, up, 0, y) == Some(Reverse(y));
    assert x[1..] == [] && y[1..] == [];
    assert Reverse(x) == Reverse(x[1..]) + [x[0]] == x && Reverse(y) == Reverse(y[1..]) + [y[0]] == y;
  }

  /** Merkle completeness: for every leaf of every list, the fold of its proof is the root,
      padded levels included. */
  lemma ProofsVerify(hs: Hashes, leaves: seq<nat>, idx: nat)
    requires idx < |leaves|
    ensures ProofFor(hs, leaves, idx).Some?
    ensures VerifyChunk(hs, leaves[idx], ProofFor(hs, leaves, idx).value, ComputeRoot(hs, leaves))
  {
    var path := ClimbComplete(hs, HashLeaves(hs, leaves), idx, []);
    assert Reverse([]) + path == path;
  }

  /** No two inputs share a hash, and no leaf hash is a pair hash. */
  ghost predicate CollisionFree(hs: Hashes) {
    && (forall a, b :: hs.leaf(a) == hs.leaf(b) ==> a == b)
    && (forall a, b, c, d :: hs.pair(a, b) == hs.pair(c, d) ==> a == c && b == d)
    && forall a, b, c :: hs.leaf(a) != hs.pair(b, c)
  }

  /** `n` is hashed up from the leaves in `k` levels. */
  ghost predicate Under(hs: Hashes, leaves: seq<nat>, n: nat, k: nat)
    decreases k
  {
    if k == 0 then exists l :: l in leaves && n == hs.leaf(l)
    else exists a, b :: n == hs.pair(a, b) && Under(hs, leaves, a, k - 1) && Under(hs, leaves, b, k - 1)
  }

  ghost predicate AllUnder(hs: Hashes, leaves: seq<nat>, level: seq<nat>, k: nat) {
    forall i :: 0 <= i < |level| ==> Under(hs, leaves, level[i], k)
  }

  lemma {:induction false} NextLevelUnder(hs: Hashes, leaves: seq<nat>, level: seq<nat>, k: nat)
    requires AllUnder(hs, leaves, level, k)
    ensures AllUnder(hs, leaves, NextLevel(hs, level), k + 1)
  {
    var up := NextLevel(hs, level);
    forall i | 0 <= i < |up| ensures Under(hs, leaves, up[i], k + 1) {
      NextLevelAt(hs, level, i);
      assert Under(hs, leaves, level[2 * i], k);
    }
  }

  lemma RootUnder(hs: Hashes, leaves: seq<nat>, level: seq<nat>, k: nat) returns (height: nat)
    requires level != [] && AllUnder(hs, leaves, level, k)
    ensures Under(hs, leaves, RootOf(hs, level), height)
    decreases |level|
  {
    height := k;
    if |level| > 1 {
      NextLevelUnder(hs, leaves, level, k);
      height := RootUnder(hs, leaves, NextLevel(hs, level), k + 1);
    }
  }

  /** A proof that ends at a node of the tree starts at one, whatever its length and sides. */
  lemma FoldUnder(hs: Hashes, leaves: seq<nat>, cur: nat, proof: Proof, k: nat) returns (j: nat)
    requires CollisionFree(hs) && Under(hs, leaves, Fold(hs, cur, proof), k)
    ensures Under(hs, leaves, cur, j)
    decreases proof
  {
    if proof == [] {
      j := k;
    } else {
      var up := if proof[0].1 then hs.pair(proof[0].0, cur) else hs.pair(cur, proof[0].0);
      j := FoldUnder(hs, leaves, up, proof[1..], k);
      assert j > 0;
      j := j - 1;
    }
  }

  ghost predicate SameSides(p: Proof, q: Proof) {
    |p| == |q| && forall i :: 0 <= i < |p| ==> p[i].1 == q[i].1
  }

  lemma {:induction false} FoldInjective(hs: Hashes, x: nat, p: Proof, y: nat, q: Proof)
    requires CollisionFree(hs) && SameSides(p, q) && Fold(hs, x, p) == Fold(hs, y, q)
    ensures x == y && p == q
    decreases p
  {
    if p != [] {
      var x' := if p[0].1 then hs.pair(p[0].0, x) else hs.pair(x, p[0].0);
      var y' := if q[0].1 then hs.pair(q[0].0, y) else hs.pair(y, q[0].0);
      FoldInjective(hs, x', p[1..], y', q[1..]);
      assert p == [p[0]] + p[1..] && q == [q[0]] + q[1..];
    }
  }

  /** Soundness: without hash collisions no proof of any length or sides opens the root of
      a tree to anything but one of its leaves; and one that takes the sides of a position
      opens it to the leaf there, and is the prover's own. */
  lemma ProofsBind(hs: Hashes, leaves: seq<nat>, chunk: nat, proof: Proof)
    requires CollisionFree(hs) && leaves != []
    requires VerifyChunk(hs, chunk, proof, ComputeRoot(hs, leaves))
    ensures chunk in leaves
    ensures forall idx: nat :: idx < |leaves| && ProofFor(hs, leaves, idx).Some? &&
                               SameSides(proof, ProofFor(hs, leaves, idx).value) ==>
              chunk == leaves[idx] && proof == ProofFor(hs, leaves, idx).value
  {
    var level := HashLeaves(hs, leaves);
    forall i | 0 <= i < |level| ensures Under(hs, leaves, level[i], 0) {
      assert leaves[i] in leaves;
    }
    var height := RootUnder(hs, leaves, level, 0);
    var j := FoldUnder(hs, leaves, hs.leaf(chunk), proof, height);
    forall idx: nat | idx < |leaves| && ProofFor(hs, leaves, idx).Some? &&
                      SameSides(proof, ProofFor(hs, leaves, idx).value)
      ensures chunk == leaves[idx] && proof == ProofFor(hs, leaves, idx).value
    {
      ProofsVerify(hs, leaves, idx);
      FoldInjective(hs, hs.leaf(chunk), proof, hs.leaf(leaves[idx]), ProofFor(hs, leaves, idx).value);
    }
  }

  /** So the leaves of a tree are exactly what can be proved against its root. */
  lemma LeavesAreProvable(hs: Hashes, leaves: seq<nat>, chunk: nat)
    requires CollisionFree(hs) && leaves != []
    ensures chunk in leaves <==> exists proof :: VerifyChunk(hs, chunk, proof, ComputeRoot(hs, leaves))
  {
    if chunk in leaves {
      var idx :| 0 <= idx < |leaves| && leaves[idx] == chunk;
      ProofsVerify(hs, leaves, idx);
    }
    forall proof | VerifyChunk(hs, chunk, proof, ComputeRoot(hs, leaves)) ensures chunk in leaves {
      ProofsBind(hs, leaves, chunk, proof);
    }
  }

  lemma {:induction false} NextLevelInjective(hs: Hashes, xs: seq<nat>, ys: seq<nat>)
    requires CollisionFree(hs) && |xs| == |ys| && NextLevel(hs, xs) == NextLevel(hs, ys)
    ensures xs == ys
  {
    forall i | 0 <= i < |xs| ensures xs[i] == ys[i] {
      NextLevelAt(hs, xs, i / 2);
      NextLevelAt(hs, ys, i / 2);
    }
  }

  lemma {:induction false} RootInjective(hs: Hashes, xs: seq<nat>, ys: seq<nat>)
    requires CollisionFree(hs) && |xs| == |ys| > 0 && RootOf(hs, xs) == RootOf(hs, ys)
    ensures xs == ys
    decreases |xs|
  {
    if |xs| > 1 {
      RootInjective(hs, NextLevel(hs, xs), NextLevel(hs, ys));
      NextLevelInjective(hs, xs, ys);
    }
  }

  /** A root commits to the whole list of leaves, given how many there are. */
  lemma RootCommits(hs: Hashes, xs: seq<nat>, ys: seq<nat>)
    requires CollisionFree(hs) && |xs| == |ys|
    ensures ComputeRoot(hs, xs) == ComputeRoot(hs, ys) <==> xs == ys
  {
    if xs != [] && ComputeRoot(hs, xs) == ComputeRoot(hs, ys) {
      RootInjective(hs, HashLeaves(hs, xs), HashLeaves(hs, ys));
      forall i | 0 <= i < |xs| ensures xs[i] == ys[i] {
        assert HashLeaves(hs, xs)[i] == HashLeaves(hs, ys)[i];
      }
    }
  }

  /** It does not commit to how many: padding repeats the last leaf of three. */
  lemma RootForgetsPadding(hs: Hashes, a: nat, b: nat, c: nat)
    ensures ComputeRoot(hs, [a, b, c]) == ComputeRoot(hs, [a, b, c, c])
  {
    var x, y, z := hs.leaf(a), hs.leaf(b), hs.leaf(c);
    assert HashLeaves(hs, [a, b, c]) == [x, y, z];
    assert HashLeaves(hs, [a, b, c, c]) == [x, y, z, z];
    assert [x, y, z][2..] == [z] && [x, y, z, z][2..] == [z, z];
    assert NextLevel(hs, [z, z]) == [hs.pair(z, z)] + NextLevel(hs, []);
    assert NextLevel(hs, [x, y, z]) == [hs.pair(x, y), hs.pair(z, z)];
    assert NextLevel(hs, [x, y, z, z]) == [hs.pair(x, y), hs.pair(z, z)];
  }

  // ----- the settlement gate -----

  datatype GateLeaf = GateLeaf(name: nat, owner: nat, txHash: nat, proof: Proof)

  function ChunkOf(hs: Hashes, l: GateLeaf): nat {
    hs.jam(l.name, l.owner, l.txHash)
  }

  predicate NnsGate(hs: Hashes, leaves: seq<GateLeaf>, root: nat, seenNames: set<nat>, seenTxHashes: set<nat>)
    decreases leaves
  {
    leaves != [] ==>
      var l := leaves[0];
      && IsValidName(l.name)
      && l.name !in seenNames
      && l.txHash !in seenTxHashes
      && VerifyChunk(hs, ChunkOf(hs, l), l.proof, root)
      && NnsGate(hs, leaves[1..], root, seenNames + {l.name}, seenTxHashes + {l.txHash})
  }

  ghost predicate Distinct(leaves: seq<GateLeaf>) {
    forall i, j :: 0 <= i < j < |leaves| ==> leaves[i].name != leaves[j].name && leaves[i].txHash != leaves[j].txHash
  }

  ghost predicate Provable(hs: Hashes, l: GateLeaf, root: nat) {
    IsValidName(l.name) && VerifyChunk(hs, ChunkOf(hs, l), l.proof, root)
  }

  ghost predicate Unseen(leaves: seq<GateLeaf>, seenNames: set<nat>, seenTxHashes: set<nat>) {
    forall i :: 0 <= i < |leaves| ==> leaves[i].name !in seenNames && leaves[i].txHash !in seenTxHashes
  }

  lemma DistinctCons(l: GateLeaf, rest: seq<GateLeaf>, seenNames: set<nat>, seenTxHashes: set<nat>)
    ensures var leaves := [l] + rest;
            Distinct(leaves) && Unseen(leaves, seenNames, seenTxHashes) <==>
            && l.name !in seenNames && l.txHash !in seenTxHashes
            && Distinct(rest) && Unseen(rest, seenNames + {l.name}, seenTxHashes + {l.txHash})
  {
    var leaves := [l] + rest;
    assert leaves[0] == l;
    forall i | 0 <= i < |rest| ensures leaves[i + 1] == rest[i] { }
    if Distinct(leaves) {
      forall i, j | 0 <= i < j < |rest| ensures rest[i].name != rest[j].name && rest[i].txHash != rest[j].txHash {
        assert leaves[i + 1].name != leaves[j + 1].name;
      }
    }
  }

  /** The gate accepts exactly the batches of valid, provable rows with pairwise distinct
      names and transactions, none of them seen before. */
  lemma {:induction false} GateExact(hs: Hashes, leaves: seq<GateLeaf>, root: nat, seenNames: set<nat>,
          seenTxHashes: set<nat>)
    ensures NnsGate(hs, leaves, root, seenNames, seenTxHashes) <==>
            && Distinct(leaves) && Unseen(leaves, seenNames, seenTxHashes)
            && forall i :: 0 <= i < |leaves| ==> Provable(hs, leaves[i], root)
    decreases leaves
  {
    if leaves != [] {
      var l, rest := leaves[0], leaves[1..];
      assert leaves == [l] + rest;
      DistinctCons(l, rest, seenNames, seenTxHashes);
      GateExact(hs, rest, root, seenNames + {l.name}, seenTxHashes + {l.txHash});
      assert (forall i :: 0 <= i < |leaves| ==> Provable(hs, leaves[i], root)) <==>
             Provable(hs, l, root) && forall i :: 0 <= i < |rest| ==> Provable(hs, rest[i], root);
    }
  }

  /** The chunks of a list of registry rows, as the tree commits to them. */
  function RowChunks(hs: Hashes, rows: seq<(nat, nat, nat)>): (r: seq<nat>)
    ensures |r| == |rows| && forall i :: 0 <= i < |rows| ==> r[i] == hs.jam(rows[i].0, rows[i].1, rows[i].2)
  {
    seq<nat>(|rows|, i requires 0 <= i < |rows| => hs.jam(rows[i].0, rows[i].1, rows[i].2))
  }

  /** `batch` offers the rows at positions `picks`, each with the prover's own proof. */
  ghost predicate Offers(hs: Hashes, rows: seq<(nat, nat, nat)>, picks: seq<nat>, batch: seq<GateLeaf>) {
    |batch| == |picks| && forall j :: 0 <= j < |picks| ==>
      && picks[j] < |rows|
      && (batch[j].name, batch[j].owner, batch[j].txHash) == rows[picks[j]]
      && ProofFor(hs, RowChunks(hs, rows), picks[j]) == Some(batch[j].proof)
  }

  /** The gate accepts every sub-batch of tree rows whose names are valid and whose names
      and transactions are pairwise distinct, and no other sub-batch. */
  lemma {:induction false} GateAcceptsRows(hs: Hashes, rows: seq<(nat, nat, nat)>, picks: seq<nat>,
          batch: seq<GateLeaf>)
    requires Offers(hs, rows, picks, batch)
    ensures NnsGate(hs, batch, ComputeRoot(hs, RowChunks(hs, rows)), {}, {}) <==>
            Distinct(batch) && forall j :: 0 <= j < |batch| ==> IsValidName(batch[j].name)
  {
    var chunks := RowChunks(hs, rows);
    var root := ComputeRoot(hs, chunks);
    forall j | 0 <= j < |batch| ensures VerifyChunk(hs, ChunkOf(hs, batch[j]), batch[j].proof, root) {
      ProofsVerify(hs, chunks, picks[j]);
      var row := rows[picks[j]];
      assert chunks[picks[j]] == hs.jam(row.0, row.1, row.2);
    }
    GateExact(hs, batch, root, {}, {});
  }

  /** A registry row, and the claim a batch makes of one. */
  function RowOf(l: GateLeaf): (nat, nat, nat) {
    (l.name, l.owner, l.txHash)
  }

  function RowsOf(batch: seq<GateLeaf>): (r: seq<(nat, nat, nat)>)
    ensures |r| == |batch| && forall i :: 0 <= i < |batch| ==> r[i] == RowOf(batch[i])
  {
    seq(|batch|, i requires 0 <= i < |batch| => RowOf(batch[i]))
  }

  ghost predicate JamInjective(hs: Hashes) {
    forall a, b, c, a', b', c' :: hs.jam(a, b, c) == hs.jam(a', b', c') ==> (a, b, c) == (a', b', c')
  }

  lemma LeafSound(hs: Hashes, rows: seq<(nat, nat, nat)>, l: GateLeaf)
    requires CollisionFree(hs) && JamInjective(hs) && rows != []
    requires VerifyChunk(hs, ChunkOf(hs, l), l.proof, ComputeRoot(hs, RowChunks(hs, rows)))
    ensures RowOf(l) in rows
  {
    var chunks := RowChunks(hs, rows);
    ProofsBind(hs, chunks, ChunkOf(hs, l), l.proof);
    var i :| 0 <= i < |chunks| && chunks[i] == ChunkOf(hs, l);
    assert rows[i] == RowOf(l);
  }

  /** What an accepted batch proves: every triple in it is a registry row of the committed
      tree, whatever proofs it came with. */
  lemma {:induction false} GateSound(hs: Hashes, rows: seq<(nat, nat, nat)>, batch: seq<GateLeaf>)
    requires CollisionFree(hs) && JamInjective(hs) && rows != []
    requires NnsGate(hs, batch, ComputeRoot(hs, RowChunks(hs, rows)), {}, {})
    ensures forall j :: 0 <= j < |batch| ==> RowOf(batch[j]) in rows
  {
    var root := ComputeRoot(hs, RowChunks(hs, rows));
    GateExact(hs, batch, root, {}, {});
    forall j | 0 <= j < |batch| ensures RowOf(batch[j]) in rows {
      assert Provable(hs, batch[j], root);
      LeafSound(hs, rows, batch[j]);
    }
  }

  /** Rows of the tree, with valid names, no name or transaction twice. */
  ghost predicate Registered(rows: seq<(nat, nat, nat)>, triples: seq<(nat, nat, nat)>) {
    && (forall i :: 0 <= i < |triples| ==> triples[i] in rows && IsValidName(triples[i].0))
    && forall i, j :: 0 <= i < j < |triples| ==> triples[i].0 != triples[j].0 && triples[i].2 != triples[j].2
  }

  ghost predicate Settles(hs: Hashes, rows: seq<(nat, nat, nat)>, triples: seq<(nat, nat, nat)>, batch: seq<GateLeaf>) {
    RowsOf(batch) == triples && NnsGate(hs, batch, ComputeRoot(hs, RowChunks(hs, rows)), {}, {})
  }

  lemma SettledRows(hs: Hashes, rows: seq<(nat, nat, nat)>, triples: seq<(nat, nat, nat)>, batch: seq<GateLeaf>)
    requires CollisionFree(hs) && JamInjective(hs) && rows != [] && Settles(hs, rows, triples, batch)
    ensures Registered(rows, triples)
  {
    var root := ComputeRoot(hs, RowChunks(hs, rows));
    GateSound(hs, rows, batch);
    GateExact(hs, batch, root, {}, {});
    forall i | 0 <= i < |triples| ensures triples[i] in rows && IsValidName(triples[i].0) {
      assert Provable(hs, batch[i], root) && RowOf(batch[i]) == triples[i];
    }
    forall i, j | 0 <= i < j < |triples|
      ensures triples[i].0 != triples[j].0 && triples[i].2 != triples[j].2
    {
      assert RowOf(batch[i]) == triples[i] && RowOf(batch[j]) == triples[j];
    }
  }

  lemma RowsSettle(hs: Hashes, rows: seq<(nat, nat, nat)>, triples: seq<(nat, nat, nat)>)
      returns (batch: seq<GateLeaf>)
    requires Registered(rows, triples)
    ensures Settles(hs, rows, triples, batch)
  {
    var picks;
    picks, batch := ProveAll(hs, rows, triples);
    forall i | 0 <= i < |batch| ensures RowOf(batch[i]) == triples[i] { }
    GateAcceptsRows(hs, rows, picks, batch);
  }

  /** The prover's own batch for some rows of the tree. */
  lemma ProveAll(hs: Hashes, rows: seq<(nat, nat, nat)>, triples: seq<(nat, nat, nat)>)
      returns (picks: seq<nat>, batch: seq<GateLeaf>)
    requires forall i :: 0 <= i < |triples| ==> triples[i] in rows
    ensures Offers(hs, rows, picks, batch) && RowsOf(batch) == triples
  {
    picks, batch := [], [];
    while |batch| < |triples|
      invariant |batch| <= |triples| && Offers(hs, rows, picks, batch)
      invariant forall i :: 0 <= i < |batch| ==> RowOf(batch[i]) == triples[i]
    {
      var t := triples[|batch|];
      var idx :| 0 <= idx < |rows| && rows[idx] == t;
      ProofsVerify(hs, RowChunks(hs, rows), idx);
      var proof := ProofFor(hs, RowChunks(hs, rows), idx).value;
      picks, batch := picks + [idx], batch + [GateLeaf(t.0, t.1, t.2, proof)];
    }
    assert RowsOf(batch) == triples;
  }

  /** The batches that can be settled against a commitment: there are proofs that get a list
      of triples past the gate exactly when all are rows of the tree, with valid names, and
      no name or transaction occurs twice. */
  lemma SettledExactly(hs: Hashes, rows: seq<(nat, nat, nat)>, triples: seq<(nat, nat, nat)>)
    requires CollisionFree(hs) && JamInjective(hs) && rows != []
    ensures (exists batch :: Settles(hs, rows, triples, batch)) <==> Registered(rows, triples)
  {
    if batch :| Settles(hs, rows, triples, batch) {
      SettledRows(hs, rows, triples, batch);
    }
    if Registered(rows, triples) {
      var batch := RowsSettle(hs, rows, triples);
    }
  }
}
