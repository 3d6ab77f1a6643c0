/** End to end: who owns a name once a follower has scanned a chain. */
module Ownership {
  import opened Prelude
  import opened LittleEndian
  import opened Text
  import opened Accumulator
  import opened Predicates
  import opened Kernel
  import opened KernelRuns
  import opened Chain
  import opened Extraction
  import opened Follower
  import opened FollowerRuns

  /** What alignment leaves of the blocks up to height `top`: listed transactions only. */
  ghost predicate Aligned(h: Hull, source: Source, top: nat) {
    && RejectsWhitespace(h.codec) && Traverses(h.codec)
    && forall n: nat :: GENESIS_HEIGHT <= n <= top ==> AlignedBlock(h.codec, source(n))
  }

  ghost function DetailsOf(source: Source, b: nat): seq<Tx> {
    source(GENESIS_HEIGHT + b).details
  }

  /** The output at `p` in the `b`-th block from genesis makes claim `c`, which is for an
      acceptable name with key `k`, and its transaction paid the treasury the fee. */
  ghost predicate PaidAt(tip5: Tip5, h: Hull, source: Source, b: nat, p: Place, c: Candidate, k: Digest) {
    && ClaimAt(h, DetailsOf(source, b), p, c)
    && Registrable(c.name) && NameKey(tip5, Cord(c.name)) == k
    && Pays(h, DetailsOf(source, b)[p.tx], HullFee(c.name))
  }

  /** The first such output of the first `n` blocks, in the order of blocks, of the
      transactions of a block, and of the outputs of a transaction. */
  ghost predicate FirstPaid(tip5: Tip5, h: Hull, source: Source, n: nat, b: nat, p: Place, c: Candidate, k: Digest) {
    && b < n && PaidAt(tip5, h, source, b, p, c, k)
    && forall b': nat, p', c' :: b' < n && PaidAt(tip5, h, source, b', p', c', k) ==>
         b < b' || (b == b' && (p == p' || Before(p, p')))
  }

  lemma {:induction false} PokeAllReached(env: Env, st: State, blocks: seq<Block>, pokes: seq<Block>)
    requires Reached(env, st, blocks) && AllAccepted(env, st, pokes)
    ensures Reached(env, PokeAll(env, st, pokes), blocks + pokes)
    decreases pokes
  {
    if pokes == [] {
      assert blocks + pokes == blocks;
    } else {
      AcceptReaches(env, st, blocks, pokes[0]);
      PokeAllReached(env, Step(env, st, ScanBlock(pokes[0])), blocks + [pokes[0]], pokes[1..]);
      SeqRegroup(blocks, pokes);
    }
  }

  /** The page in a poke lists what the fetched block lists. */
  lemma PokeLists(h: Hull, b: Fetch, poke: Block)
    requires Traverses(h.codec) && PokeFor(h, b) == Ok(poke)
    ensures Lists(PageOf(poke), b)
  {
    var txIds := CanonicalOrder(h.codec, b.pageTxIds).value;
    var members := set id | id in b.pageTxIds;
    assert forall x :: x in h.codec.zset(members) <==> x in members;
    forall id | id in b.pageTxIds ensures Value(id, 256) in poke.txIds {
      assert id in txIds;
      var j :| 0 <= j < |txIds| && txIds[j] == id;
      assert poke.txIds[j] == Value(id, 256);
    }
  }

  /** Bids for `k` in a poke are the paid outputs of its block, in the same order. */
  lemma BidIsPaid(env: Env, h: Hull, source: Source, pokes: seq<Block>, b: nat, k: Digest)
      returns (at: seq<Place>)
    requires b < |pokes| && ChainPrefix(BuilderOf(h), source, pokes)
    requires Aligned(h, source, GENESIS_HEIGHT + |pokes| - 1)
    ensures InOrder(at) && |at| == |pokes[b].claims|
    ensures forall i: nat :: BidAt(env, pokes, b, i, k) <==>
                             i < |at| && exists c :: PaidAt(env.tip5, h, source, b, at[i], c, k)
    ensures forall p, c :: PaidAt(env.tip5, h, source, b, p, c, k) ==> p in at
    ensures forall i: nat, c :: i < |at| && PaidAt(env.tip5, h, source, b, at[i], c, k) ==>
                                pokes[b].claims[i] == KernelClaim(c)
  {
    var block := source(GENESIS_HEIGHT + b);
    var poke := pokes[b];
    assert BuilderOf(h)(block) == Ok(poke);
    PokeLists(h, block, poke);
    var claims := FromDetails(h, block.details).value;
    at := DetailsExact(h, block.details);
    forall i: nat | i < |at|
      ensures ClaimAt(h, block.details, at[i], claims[i])
      ensures BidAt(env, pokes, b, i, k) <==> PaidAt(env.tip5, h, source, b, at[i], claims[i], k)
    {
      ExtractedClaimVerdict(h, block, PageOf(poke), at[i], claims[i]);
      ValidClaimMeans(PageOf(poke), KernelClaim(claims[i]));
    }
    forall i: nat, c | i < |at| && PaidAt(env.tip5, h, source, b, at[i], c, k) ensures c == claims[i] {
      var d := block.details[at[i].tx];
      OneClaimEach(h, d, d.outputs[at[i].output], c, claims[i]);
    }
  }

  /** The accumulator of accepted pokes, key by key. */
  lemma {:induction false} PokesLookup(env: Env, pokes: seq<Block>, k: Digest)
    requires AllAccepted(env, FRESH, pokes) && pokes != [] && k != NameKey(env.tip5, NOCK)
    ensures EarliestOwns(env, PokeAll(env, FRESH, pokes).acc, pokes, k)
  {
    PokeAllReached(env, FRESH, [], pokes);
    assert [] + pokes == pokes;
    ReplayLookup(env, pokes, k);
  }

  /** The row a claim of the `b`-th block writes. */
  ghost function PaidRow(source: Source, b: nat, c: Candidate): Entry {
    var block := source(GENESIS_HEIGHT + b);
    Entry(Cord(c.name), Cord(c.owner), Value(c.txHash, 256), GENESIS_HEIGHT + b, Value(block.pageDigest, 256))
  }

  /** `k` belongs to the first acceptable, fully paid claim to it among the outputs of the
      first `n` blocks, and to nobody if there is none. */
  ghost predicate FirstPaidOwns(tip5: Tip5, h: Hull, source: Source, acc: Acc, n: nat, k: Digest) {
    && (k in acc <==> exists b: nat, p, c :: b < n && PaidAt(tip5, h, source, b, p, c, k))
    && forall b: nat, p, c :: FirstPaid(tip5, h, source, n, b, p, c, k) ==>
         k in acc && acc[k] == PaidRow(source, b, c)
  }

  lemma PaidBid(env: Env, h: Hull, source: Source, pokes: seq<Block>, b: nat, i: nat, k: Digest)
      returns (p: Place, c: Candidate)
    requires ChainPrefix(BuilderOf(h), source, pokes) && Aligned(h, source, GENESIS_HEIGHT + |pokes| - 1)
    requires BidAt(env, pokes, b, i, k)
    ensures PaidAt(env.tip5, h, source, b, p, c, k)
  {
    var at := BidIsPaid(env, h, source, pokes, b, k);
    p := at[i];
    c :| PaidAt(env.tip5, h, source, b, p, c, k);
  }

  lemma BidExistsIffPaid(env: Env, h: Hull, source: Source, pokes: seq<Block>, k: Digest)
    requires ChainPrefix(BuilderOf(h), source, pokes) && Aligned(h, source, GENESIS_HEIGHT + |pokes| - 1)
    ensures (exists b: nat, i: nat :: BidAt(env, pokes, b, i, k)) <==>
            exists b: nat, p, c :: b < |pokes| && PaidAt(env.tip5, h, source, b, p, c, k)
  {
    if b: nat, i: nat :| BidAt(env, pokes, b, i, k) {
      var p, c := PaidBid(env, h, source, pokes, b, i, k);
    }
    if b: nat, p, c :| b < |pokes| && PaidAt(env.tip5, h, source, b, p, c, k) {
      var at := BidIsPaid(env, h, source, pokes, b, k);
      var i :| 0 <= i < |at| && at[i] == p;
      assert BidAt(env, pokes, b, i, k);
    }
  }

  lemma FirstInBlock(tip5: Tip5, h: Hull, source: Source, n: nat, b: nat, p: Place, c: Candidate, k: Digest,
          at: seq<Place>, i: nat, i': nat, c': Candidate)
    requires FirstPaid(tip5, h, source, n, b, p, c, k)
    requires InOrder(at) && i < |at| && at[i] == p
    requires i' < |at| && PaidAt(tip5, h, source, b, at[i'], c', k)
    ensures i <= i'
  {
  }

  lemma FirstOfBlocks(tip5: Tip5, h: Hull, source: Source, n: nat, b: nat, p: Place, c: Candidate, k: Digest,
          b': nat, p': Place, c': Candidate)
    requires FirstPaid(tip5, h, source, n, b, p, c, k)
    requires b' < n && PaidAt(tip5, h, source, b', p', c', k)
    ensures b <= b'
  {
  }

  /** The first paid output makes the earliest bid. */
  lemma FirstPaidIsEarliest(env: Env, h: Hull, source: Source, pokes: seq<Block>, b: nat, p: Place, c: Candidate,
          k: Digest)
      returns (i: nat)
    requires ChainPrefix(BuilderOf(h), source, pokes) && Aligned(h, source, GENESIS_HEIGHT + |pokes| - 1)
    requires FirstPaid(env.tip5, h, source, |pokes|, b, p, c, k)
    ensures Earliest(env, pokes, b, i, k) && pokes[b].claims[i] == KernelClaim(c)
  {
    var at := BidIsPaid(env, h, source, pokes, b, k);
    i :| 0 <= i < |at| && at[i] == p;
    forall i': nat | BidAt(env, pokes, b, i', k) ensures i <= i' {
      var c' :| PaidAt(env.tip5, h, source, b, at[i'], c', k);
      FirstInBlock(env.tip5, h, source, |pokes|, b, p, c, k, at, i, i', c');
    }
    forall b': nat, i': nat | BidAt(env, pokes, b', i', k) ensures b <= b' {
      var p', c' := PaidBid(env, h, source, pokes, b', i', k);
      FirstOfBlocks(env.tip5, h, source, |pokes|, b, p, c, k, b', p', c');
    }
  }

  lemma RowIsPaidRow(h: Hull, source: Source, pokes: seq<Block>, acc: Acc, b: nat, i: nat, c: Candidate, k: Digest)
    requires Serves(source) && ChainPrefix(BuilderOf(h), source, pokes) && b < |pokes| && i < |pokes[b].claims|
    requires pokes[b].claims[i] == KernelClaim(c)
    requires k in acc && IsRowOf(acc[k], pokes[b].claims[i], pokes[b].height, pokes[b].digest)
    ensures acc[k] == PaidRow(source, b, c)
  {
    assert BuilderOf(h)(source(GENESIS_HEIGHT + b)) == Ok(pokes[b]);
  }

  lemma {:induction false} PokesOwn(env: Env, h: Hull, source: Source, pokes: seq<Block>, k: Digest)
    requires Serves(source) && Aligned(h, source, GENESIS_HEIGHT + |pokes| - 1)
    requires ChainPrefix(BuilderOf(h), source, pokes) && AllAccepted(env, FRESH, pokes) && pokes != []
    requires k != NameKey(env.tip5, NOCK)
    ensures FirstPaidOwns(env.tip5, h, source, PokeAll(env, FRESH, pokes).acc, |pokes|, k)
  {
    var acc := PokeAll(env, FRESH, pokes).acc;
    PokesLookup(env, pokes, k);
    BidExistsIffPaid(env, h, source, pokes, k);
    forall b: nat, p, c | FirstPaid(env.tip5, h, source, |pokes|, b, p, c, k)
      ensures k in acc && acc[k] == PaidRow(source, b, c)
    {
      var i := FirstPaidIsEarliest(env, h, source, pokes, b, p, c, k);
      RowIsPaidRow(h, source, pokes, acc, b, i, c, k);
    }
  }

  /** The first to pay owns the name: after any follower run past boot, every key but the
      reserved one belongs to the first output, of the blocks up to the cursor, that makes
      an acceptable, fully paid claim to it. */
  lemma {:induction false} FirstPayerOwns(env: Env, h: Hull, source: Source, ticks: seq<Tick>, k: Digest)
    requires Serves(source) && Aligned(h, source, RunTicks(env, BuilderOf(h), source, FRESH, ticks).height)
    requires forall i :: 0 <= i < |ticks| ==> InRange(ticks[i])
    requires k != NameKey(env.tip5, NOCK)
    ensures var st := RunTicks(env, BuilderOf(h), source, FRESH, ticks);
            if Boot(st) then k !in st.acc
            else st.height >= GENESIS_HEIGHT &&
                 FirstPaidOwns(env.tip5, h, source, st.acc, st.height - GENESIS_HEIGHT + 1, k)
  {
    var pokes := TicksPokeInOrder(env, BuilderOf(h), source, ticks);
    FollowsCursor(env, BuilderOf(h), source, RunTicks(env, BuilderOf(h), source, FRESH, ticks), pokes);
    TldInserted(env);
    if pokes != [] {
      PokesOwn(env, h, source, pokes, k);
    }
  }
}
