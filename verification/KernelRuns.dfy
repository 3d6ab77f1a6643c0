/** What holds of the kernel after any sequence of pokes. */
module KernelRuns {
  import opened Prelude
  import opened LittleEndian
  import opened Accumulator
  import opened Predicates
  import opened Kernel

  function Run(env: Env, st: State, causes: seq<Cause>): State
    decreases causes
  {
    if causes == [] then st else Run(env, Step(env, st, causes[0]), causes[1..])
  }

  /** The blocks among the pokes that the kernel accepted. */
  function Accepted(env: Env, st: State, causes: seq<Cause>): seq<Block>
    decreases causes
  {
    if causes == [] then []
    else
      var rest := Accepted(env, Step(env, st, causes[0]), causes[1..]);
      if causes[0].ScanBlock? && Accepts(env, st, causes[0].block) then [causes[0].block] + rest else rest
  }

  /** The reference accumulator: blocks folded in order, nothing else. */
  function FoldBlocks(env: Env, acc: Acc, blocks: seq<Block>): Acc
    decreases blocks
  {
    if blocks == [] then acc else FoldBlocks(env, FoldBlock(env, acc, blocks[0]), blocks[1..])
  }

  function TldOnly(env: Env): Acc {
    EnsureTld(env.tip5, map[])
  }

  /** The state that a sequence of accepted blocks stands for. */
  function Replay(env: Env, blocks: seq<Block>): State {
    if blocks == [] then FRESH
    else
      var last := blocks[|blocks| - 1];
      State(FoldBlocks(env, TldOnly(env), blocks), last.height, last.digest)
  }

  /** Parent-linked, with consecutive heights from the genesis height. */
  ghost predicate Linked(blocks: seq<Block>) {
    && (blocks != [] ==> blocks[0].height == GENESIS_HEIGHT)
    && forall i :: 0 < i < |blocks| ==>
         blocks[i].parent == blocks[i - 1].digest && blocks[i].height == blocks[i - 1].height + 1
  }

  /** A state reached by accepting exactly `blocks`. */
  ghost predicate Reached(env: Env, st: State, blocks: seq<Block>) {
    && Linked(blocks)
    && if blocks == [] then st == FRESH || st == FRESH.(acc := TldOnly(env)) else st == Replay(env, blocks)
  }

  lemma {:induction false} FoldBlocksAppend(env: Env, acc: Acc, blocks: seq<Block>, b: Block)
    ensures FoldBlocks(env, acc, blocks + [b]) == FoldBlock(env, FoldBlocks(env, acc, blocks), b)
    decreases blocks
  {
    if blocks == [] {
      assert (blocks + [b])[1..] == [];
    } else {
      FoldBlocksAppend(env, FoldBlock(env, acc, blocks[0]), blocks[1..], b);
      assert (blocks + [b])[1..] == blocks[1..] + [b];
    }
  }

  lemma LinkedHeights(blocks: seq<Block>, i: nat)
    requires Linked(blocks) && i < |blocks|
    ensures blocks[i].height == GENESIS_HEIGHT + i
  {
    if i > 0 { LinkedHeights(blocks, i - 1); }
  }

  lemma TldInserted(env: Env)
    ensures TldOnly(env) == map[NameKey(env.tip5, NOCK) := TldEntry()]
    ensures EnsureTld(env.tip5, TldOnly(env)) == TldOnly(env)
  {
  }

  /** Rows are never overwritten. */
  lemma {:induction false} FoldKeeps(env: Env, acc: Acc, blocks: seq<Block>, k: Digest)
    requires k in acc
    ensures k in FoldBlocks(env, acc, blocks) && FoldBlocks(env, acc, blocks)[k] == acc[k]
    decreases blocks
  {
    if blocks != [] {
      var b := blocks[0];
      ScannerLookup(env.tip5, acc, PageOf(b), b.height, b.claims, k);
      FoldKeeps(env, FoldBlock(env, acc, b), blocks[1..], k);
    }
  }

  lemma LinkedAppend(blocks: seq<Block>, b: Block)
    requires Linked(blocks)
    requires if blocks == [] then b.height == GENESIS_HEIGHT
             else b.parent == blocks[|blocks| - 1].digest && b.height == blocks[|blocks| - 1].height + 1
    ensures Linked(blocks + [b])
  {
  }

  /** The cursor after accepting `blocks`. */
  lemma {:induction false} ReachedCursor(env: Env, st: State, blocks: seq<Block>)
    requires Reached(env, st, blocks)
    ensures Boot(st) <==> blocks == []
    ensures blocks == [] ==> Want(st) == GENESIS_HEIGHT && Seeded(env, st) == TldOnly(env)
    ensures blocks != [] ==>
              && st.height == blocks[|blocks| - 1].height && st.digest == blocks[|blocks| - 1].digest
              && Want(st) == st.height + 1
              && Seeded(env, st) == st.acc == FoldBlocks(env, TldOnly(env), blocks)
  {
    TldInserted(env);
    if blocks != [] {
      LinkedHeights(blocks, |blocks| - 1);
    }
  }

  lemma AcceptReaches(env: Env, st: State, blocks: seq<Block>, b: Block)
    requires Reached(env, st, blocks) && Accepts(env, st, b)
    ensures Reached(env, Step(env, st, ScanBlock(b)), blocks + [b])
  {
    ReachedCursor(env, st, blocks);
    LinkedAppend(blocks, b);
    FoldBlocksAppend(env, TldOnly(env), blocks, b);
  }

  /** Any other poke leaves the accepted blocks to account for the state. */
  lemma OtherReaches(env: Env, st: State, blocks: seq<Block>, c: Cause)
    requires Reached(env, st, blocks) && !(c.ScanBlock? && Accepts(env, st, c.block))
    ensures Reached(env, Step(env, st, c), blocks)
  {
    ReachedCursor(env, st, blocks);
    if c.ProveGenesis? && blocks != [] {
      TldInserted(env);
      FoldKeeps(env, TldOnly(env), blocks, NameKey(env.tip5, NOCK));
      assert EnsureTld(env.tip5, st.acc) == st.acc;
    }
  }

  lemma StepReaches(env: Env, st: State, blocks: seq<Block>, c: Cause)
    requires Reached(env, st, blocks)
    ensures Reached(env, Step(env, st, c),
                    if c.ScanBlock? && Accepts(env, st, c.block) then blocks + [c.block] else blocks)
  {
    if c.ScanBlock? && Accepts(env, st, c.block) {
      AcceptReaches(env, st, blocks, c.block);
    } else {
      OtherReaches(env, st, blocks, c);
    }
  }

  lemma {:induction false} AcceptedUnfolds(env: Env, st: State, blocks: seq<Block>, causes: seq<Cause>)
    requires causes != []
    ensures var c, rest := causes[0], Accepted(env, Step(env, st, causes[0]), causes[1..]);
            blocks + Accepted(env, st, causes) ==
            (if c.ScanBlock? && Accepts(env, st, c.block) then blocks + [c.block] else blocks) + rest
  {
  }

  lemma {:induction false} RunReaches(env: Env, st: State, blocks: seq<Block>, causes: seq<Cause>)
    requires Reached(env, st, blocks)
    ensures Reached(env, Run(env, st, causes), blocks + Accepted(env, st, causes))
    decreases causes
  {
    if causes == [] {
      assert blocks + [] == blocks;
    } else {
      var c := causes[0];
      StepReaches(env, st, blocks, c);
      var next := if c.ScanBlock? && Accepts(env, st, c.block) then blocks + [c.block] else blocks;
      RunReaches(env, Step(env, st, c), next, causes[1..]);
      AcceptedUnfolds(env, st, blocks, causes);
    }
  }

  /** Replay determinism: whatever was poked, once a block has been accepted the whole
      state is that of the accepted blocks alone. */
  lemma {:induction false} ReplayDeterminism(env: Env, causes: seq<Cause>)
    ensures var blocks := Accepted(env, FRESH, causes);
            && Linked(blocks)
            && (blocks != [] ==> Run(env, FRESH, causes) == Replay(env, blocks))
            && (blocks == [] ==> Run(env, FRESH, causes) in {FRESH, FRESH.(acc := TldOnly(env))})
  {
    RunReaches(env, FRESH, [], causes);
    assert [] + Accepted(env, FRESH, causes) == Accepted(env, FRESH, causes);
  }

  /** A rejected poke leaves the cursor alone and adds at most the reserved row.  It leaves
      the whole state alone exactly when the kernel is past boot or has that row already. */
  lemma RejectionKeepsCursor(env: Env, st: State, b: Block)
    requires !Accepts(env, st, b)
    ensures var st' := Step(env, st, ScanBlock(b));
            && st'.height == st.height && st'.digest == st.digest
            && (st'.acc == st.acc || (Boot(st) && st'.acc == EnsureTld(env.tip5, st.acc)))
            && (forall k :: k in st'.acc && k !in st.acc ==> k == NameKey(env.tip5, NOCK) && st'.acc[k] == TldEntry())
            && (st' == st <==> !Boot(st) || Has(env.tip5, st.acc, NOCK))
  {
  }

  /** The genesis prove leaves the cursor and every row alone, and sees to it that the
      reserved name `nock` has a row: its own, unless there was one. */
  lemma GenesisSeeds(env: Env, st: State)
    ensures var st', key := Step(env, st, ProveGenesis), NameKey(env.tip5, Value([110, 111, 99, 107], 256));
            && st'.height == st.height && st'.digest == st.digest && key in st'.acc
            && (forall k :: k in st.acc ==> k in st'.acc && st'.acc[k] == st.acc[k])
            && (forall k :: k in st'.acc && k !in st.acc ==>
                  && k == key
                  && st'.acc[k].name == st'.acc[k].owner == Value([110, 111, 99, 107], 256)
                  && st'.acc[k].txHash == 1 && st'.acc[k].claimHeight == 63_000 && st'.acc[k].blockDigest == 0)
  {
    NockBytes();
  }

  lemma NockBytes()
    ensures Value([110, 111, 99, 107], 256) == NOCK
  {
    var tail: seq<nat> := [110, 111, 99, 107];
    assert tail[1..] == [111, 99, 107];
    assert tail[1..][1..] == [99, 107];
    assert tail[1..][1..][1..] == [107];
    assert tail[1..][1..][1..][1..] == [];
  }

  // ----- who owns a name -----

  /** Claim `i` of block `b` is entitled to its name, whose key is `k`. */
  ghost predicate BidAt(env: Env, blocks: seq<Block>, b: nat, i: nat, k: Digest) {
    b < |blocks| && Bid(env.tip5, blocks[b].txIds, blocks[b].claims, i, k)
  }

  /** The earliest entitled claim to `k`, in block order and then list order. */
  ghost predicate Earliest(env: Env, blocks: seq<Block>, b: nat, i: nat, k: Digest) {
    && BidAt(env, blocks, b, i, k)
    && forall b': nat, i': nat :: BidAt(env, blocks, b', i', k) ==> b < b' || (b == b' && i <= i')
  }

  ghost function Winner(env: Env, blocks: seq<Block>, k: Digest): (w: Option<(nat, nat)>)
    ensures w.Some? ==> Earliest(env, blocks, w.value.0, w.value.1, k)
    ensures w.None? ==> forall b: nat, i: nat :: !BidAt(env, blocks, b, i, k)
  {
    if blocks == [] then None
    else
      var b0 := blocks[0];
      var first := FirstBid(env.tip5, b0.txIds, b0.claims, k);
      assert forall b: nat, i: nat :: b > 0 ==> (BidAt(env, blocks, b, i, k) <==> BidAt(env, blocks[1..], b - 1, i, k));
      if first.Some? then Some((0, first.value))
      else
        var rest := Winner(env, blocks[1..], k);
        if rest.None? then None else Some((rest.value.0 + 1, rest.value.1))
  }

  /** Folding blocks keeps every row and gives a free key to its earliest entitled claim. */
  lemma {:induction false} FoldLookup(env: Env, acc: Acc, blocks: seq<Block>, k: Digest)
    ensures var out, w := FoldBlocks(env, acc, blocks), Winner(env, blocks, k);
            if k in acc then k in out && out[k] == acc[k]
            else if w.Some? then
              var b := blocks[w.value.0];
              k in out && IsRowOf(out[k], b.claims[w.value.1], b.height, b.digest)
            else k !in out
    decreases blocks
  {
    if blocks != [] {
      var b := blocks[0];
      ScannerLookup(env.tip5, acc, PageOf(b), b.height, b.claims, k);
      FoldLookup(env, FoldBlock(env, acc, b), blocks[1..], k);
    }
  }

  lemma {:induction false} EarliestUnique(env: Env, blocks: seq<Block>, k: Digest, b: nat, i: nat)
    requires Earliest(env, blocks, b, i, k)
    ensures Winner(env, blocks, k) == Some((b, i))
  {
    var w := Winner(env, blocks, k);
    assert BidAt(env, blocks, w.value.0, w.value.1, k);
  }

  /** `k` holds the row of the earliest entitled claim to it in `blocks`, or nothing. */
  ghost predicate EarliestOwns(env: Env, acc: Acc, blocks: seq<Block>, k: Digest) {
    && (k in acc <==> exists b: nat, i: nat :: BidAt(env, blocks, b, i, k))
    && forall b: nat, i: nat :: Earliest(env, blocks, b, i, k) ==>
         k in acc && IsRowOf(acc[k], blocks[b].claims[i], blocks[b].height, blocks[b].digest)
  }

  lemma {:induction false} ReplayLookup(env: Env, blocks: seq<Block>, k: Digest)
    requires k != NameKey(env.tip5, NOCK)
    ensures EarliestOwns(env, FoldBlocks(env, TldOnly(env), blocks), blocks, k)
  {
    TldInserted(env);
    FoldLookup(env, TldOnly(env), blocks, k);
    forall b: nat, i: nat | Earliest(env, blocks, b, i, k) ensures Winner(env, blocks, k) == Some((b, i)) {
      EarliestUnique(env, blocks, k, b, i);
    }
    var w := Winner(env, blocks, k);
    assert w.Some? ==> BidAt(env, blocks, w.value.0, w.value.1, k);
  }

  /** First writer wins over whole runs: past boot, the row of every key but the
      reserved one is that of the earliest entitled claim to it among the accepted
      blocks, and there is no row without such a claim. */
  lemma {:induction false} EarliestClaimWins(env: Env, causes: seq<Cause>, k: Digest)
    requires Accepted(env, FRESH, causes) != [] && k != NameKey(env.tip5, NOCK)
    ensures EarliestOwns(env, Run(env, FRESH, causes).acc, Accepted(env, FRESH, causes), k)
  {
    ReplayDeterminism(env, causes);
    ReplayLookup(env, Accepted(env, FRESH, causes), k);
  }

  /** A row that some accepted block accounts for. */
  ghost predicate DrawnFrom(e: Entry, blocks: seq<Block>) {
    exists b :: 0 <= b < |blocks| && DrawnFromBlock(e, blocks[b])
  }

  ghost predicate DrawnFromBlock(e: Entry, b: Block) {
    exists i :: 0 <= i < |b.claims| && Entitled(b.txIds, b.claims[i]) && IsRowOf(e, b.claims[i], b.height, b.digest)
  }

  /** Reachable kernel states: at boot nothing but the reserved row; past boot the
      accepted blocks are parent-linked with consecutive heights from the genesis
      height, the cursor is the last of them, and every other row sits under the key of
      its name and is that of an entitled claim of one accepted block. */
  lemma {:induction false} ReachableStates(env: Env, causes: seq<Cause>)
    ensures var st, blocks := Run(env, FRESH, causes), Accepted(env, FRESH, causes);
            && Keyed(env.tip5, st.acc)
            && if blocks == [] then
                 Boot(st) && forall k :: k in st.acc ==> k == NameKey(env.tip5, NOCK) && st.acc[k] == TldEntry()
               else
                 && Linked(blocks) && !Boot(st)
                 && st.height == blocks[|blocks| - 1].height == GENESIS_HEIGHT + |blocks| - 1
                 && st.digest == blocks[|blocks| - 1].digest
                 && NameKey(env.tip5, NOCK) in st.acc && st.acc[NameKey(env.tip5, NOCK)] == TldEntry()
                 && forall k :: k in st.acc && k != NameKey(env.tip5, NOCK) ==>
                      DrawnFrom(st.acc[k], blocks)
  {
    ReplayDeterminism(env, causes);
    TldInserted(env);
    var st, blocks := Run(env, FRESH, causes), Accepted(env, FRESH, causes);
    if blocks != [] {
      LinkedHeights(blocks, |blocks| - 1);
      FoldLookup(env, TldOnly(env), blocks, NameKey(env.tip5, NOCK));
      forall k | k in st.acc
        ensures k == NameKey(env.tip5, st.acc[k].name)
        ensures k != NameKey(env.tip5, NOCK) ==> DrawnFrom(st.acc[k], blocks)
      {
        FoldLookup(env, TldOnly(env), blocks, k);
        if k != NameKey(env.tip5, NOCK) {
          var w := Winner(env, blocks, k).value;
          var b := blocks[w.0];
          assert Bid(env.tip5, b.txIds, b.claims, w.1, k);
          assert DrawnFromBlock(st.acc[k], b);
        }
      }
    }
  }

  /** A longer run keeps every row of the shorter one, unchanged. */
  lemma {:induction false} RowsPersist(env: Env, st: State, causes: seq<Cause>, k: Digest)
    requires k in st.acc
    ensures k in Run(env, st, causes).acc && Run(env, st, causes).acc[k] == st.acc[k]
    decreases causes
  {
    if causes != [] {
      var c := causes[0];
      if c.ScanBlock? {
        ScannerLookup(env.tip5, Seeded(env, st), PageOf(c.block), c.block.height, c.block.claims, k);
      }
      RowsPersist(env, Step(env, st, c), causes[1..], k);
    }
  }

  lemma {:induction false} RunAppend(env: Env, st: State, causes: seq<Cause>, more: seq<Cause>)
    ensures Run(env, st, causes + more) == Run(env, Run(env, st, causes), more)
    ensures Accepted(env, st, causes + more) == Accepted(env, st, causes) + Accepted(env, Run(env, st, causes), more)
    decreases causes
  {
    if causes == [] {
      assert causes + more == more;
    } else {
      assert (causes + more)[1..] == causes[1..] + more;
      RunAppend(env, Step(env, st, causes[0]), causes[1..], more);
    }
  }

  /** The rows of a run are all present, unchanged, in every run that extends it. */
  lemma {:induction false} PrefixRowsPersist(env: Env, causes: seq<Cause>, more: seq<Cause>)
    ensures var short, long := Run(env, FRESH, causes).acc, Run(env, FRESH, causes + more).acc;
            forall k :: k in short ==> k in long && long[k] == short[k]
  {
    RunAppend(env, FRESH, causes, more);
    forall k | k in Run(env, FRESH, causes).acc
      ensures k in Run(env, FRESH, causes + more).acc
      ensures Run(env, FRESH, causes + more).acc[k] == Run(env, FRESH, causes).acc[k]
    {
      RowsPersist(env, Run(env, FRESH, causes), more, k);
    }
  }
}
