/** The chain follower: planning under finality, batch validation, and the loop that
    pokes blocks into the kernel (`chain_follower.rs`). */
module Follower {
  import opened Prelude
  import opened LittleEndian
  import opened Text
  import opened Accumulator
  import opened Predicates
  import opened Kernel
  import opened Chain
  import opened Extraction

  const FINALITY_DEPTH: nat := 10

  // ----- planning -----

  function SaturatingSub(a: nat, b: nat): nat {
    if a < b then 0 else a - b
  }

  function NextHeight(height: nat, boot: bool): nat {
    var next := SaturatingAdd(height, 1);
    if boot && next < GENESIS_HEIGHT then GENESIS_HEIGHT else next
  }

  /** The heights to fetch this tick. */
  function Plan(height: nat, boot: bool, tip: nat, batchMax: nat): seq<nat> {
    if tip <= FINALITY_DEPTH then []
    else
      var finalized := SaturatingSub(tip, FINALITY_DEPTH);
      var next := NextHeight(height, boot);
      if next > finalized then []
      else
        var end := SaturatingAdd(next, SaturatingSub(batchMax, 1));
        var last := if end < finalized then end else finalized;
        if last < next then [] else seq(last - next + 1, i requires i >= 0 => next + i)
  }

  /** Finality safety of one plan: it runs consecutively from the height the kernel
      wants, stays `FINALITY_DEPTH` below the tip, is empty exactly when that height is
      not final yet, and is otherwise as long as finality and the batch limit allow. */
  lemma PlanIsFinal(st: State, tip: nat, batchMax: nat)
    requires st.height <= U64_MAX && tip <= U64_MAX && 1 <= batchMax <= U64_MAX
    ensures var plan := Plan(st.height, Boot(st), tip, batchMax);
            && (forall i :: 0 <= i < |plan| ==> plan[i] == Want(st) + i)
            && (forall i :: 0 <= i < |plan| ==> st.height < plan[i] && plan[i] + FINALITY_DEPTH <= tip)
            && (plan != [] <==> Want(st) + FINALITY_DEPTH <= tip)
            && |plan| <= batchMax
            && (|plan| < batchMax ==> Want(st) + |plan| + FINALITY_DEPTH > tip)
  {
  }

  // ----- poking a batch -----

  function PeekDigest(st: State): Bytes {
    DigitsRecompose(st.digest, 256);
    Digits(st.digest, 256)
  }

  function KernelClaims(claims: seq<Candidate>): (r: seq<Claim>)
    ensures |r| == |claims| && forall i :: 0 <= i < |claims| ==> r[i] == KernelClaim(claims[i])
  {
    seq(|claims|, i requires 0 <= i < |claims| => KernelClaim(claims[i]))
  }

  /** The `%scan-block` poke for a fetched block. */
  ghost function PokeFor(h: Hull, b: Fetch): Result<Block> {
    var txIds :- CanonicalOrder(h.codec, b.pageTxIds);
    var claims :- FromDetails(h, b.details);
    Ok(Block(Value(b.parent, 256), b.height, Value(b.pageDigest, 256), Atoms(txIds), KernelClaims(claims)))
  }

  /** What the poke of a full page carries: the header, the ids in the order of the z-set
      traversal, and the claims that the outputs make, each as the kernel reads it. */
  lemma PokeMeans(h: Hull, b: Fetch, poke: Block) returns (claims: seq<Candidate>, at: seq<Place>)
    requires PokeFor(h, b) == Ok(poke)
    ensures poke.height == b.height && poke.parent == Value(b.parent, 256) && poke.digest == Value(b.pageDigest, 256)
    ensures FullIds(b.pageTxIds) && b.pageTxIds != [] ==>
              var walk := h.codec.zset(set id | id in b.pageTxIds);
              |poke.txIds| == |walk| && forall i :: 0 <= i < |walk| ==> poke.txIds[i] == Value(walk[i], 256)
    ensures Located(h, b.details, claims, at) && |poke.claims| == |claims|
    ensures forall i :: 0 <= i < |claims| ==>
              && poke.claims[i].name == Cord(claims[i].name) && poke.claims[i].owner == Cord(claims[i].owner)
              && poke.claims[i].txHash == poke.claims[i].wit.txId == Value(claims[i].txHash, 256)
              && poke.claims[i].fee == HullFee(claims[i].name)
              && poke.claims[i].wit.spenderPkh == Cord(claims[i].owner)
              && poke.claims[i].wit.outputLockRoot == TREASURY_LOCK_ROOT
              && Witnessed(h, b.details[at[i].tx], poke.claims[i].wit.treasuryAmount)
  {
    claims := FromDetails(h, b.details).value;
    at := DetailsExact(h, b.details);
    forall i | 0 <= i < |claims|
      ensures ClaimAt(h, b.details, at[i], claims[i]) && poke.claims[i] == KernelClaim(claims[i])
    {
    }
  }

  /** How a fetched block becomes a poke.  What follows holds of any way that copies the
      header across, as the hull's does. */
  type PokeBuilder = Fetch -> Result<Block>

  ghost predicate CopiesHeader(build: PokeBuilder) {
    forall b :: build(b).Ok? ==>
      && build(b).value.height == b.height
      && build(b).value.parent == Value(b.parent, 256)
      && build(b).value.digest == Value(b.pageDigest, 256)
  }

  ghost function BuilderOf(h: Hull): (build: PokeBuilder)
    ensures CopiesHeader(build)
    ensures forall b :: build(b) == PokeFor(h, b)
  {
    b => PokeFor(h, b)
  }

  /** Poke blocks in order, stopping at the first that cannot be built or is refused;
      `budget` is how many the outside world lets through before something fails. */
  ghost function ApplyBlocks(env: Env, build: PokeBuilder, st: State, blocks: seq<Fetch>, budget: nat): State
    decreases blocks
  {
    if blocks == [] || budget == 0 || build(blocks[0]).Err? then st
    else
      var b := build(blocks[0]).value;
      var next := Step(env, st, ScanBlock(b));
      if Accepts(env, st, b) then ApplyBlocks(env, build, next, blocks[1..], budget - 1) else next
  }

  ghost function ApplyBatch(env: Env, build: PokeBuilder, st: State, blocks: seq<Fetch>, budget: nat): State {
    if BatchLinks(GenesisBoot(st.height, PeekDigest(st)), PeekDigest(st), blocks)
    then ApplyBlocks(env, build, st, blocks, budget) else st
  }

  /** Poking blocks one at a time. */
  function PokeAll(env: Env, st: State, pokes: seq<Block>): State
    decreases pokes
  {
    if pokes == [] then st else PokeAll(env, Step(env, st, ScanBlock(pokes[0])), pokes[1..])
  }

  predicate AllAccepted(env: Env, st: State, pokes: seq<Block>)
    decreases pokes
  {
    pokes != [] ==>
      Accepts(env, st, pokes[0]) && AllAccepted(env, Step(env, st, ScanBlock(pokes[0])), pokes[1..])
  }

  /** Block `i` does not link: its parent is not the digest before it. */
  ghost predicate BrokenAt(st: State, blocks: seq<Fetch>, i: nat) {
    i < |blocks| && !LinkedAt(GenesisBoot(st.height, PeekDigest(st)), PeekDigest(st), blocks, i)
  }

  ghost predicate Broken(st: State, blocks: seq<Fetch>) {
    exists i: nat :: BrokenAt(st, blocks, i)
  }

  /** `pokes` are the blocks applied, from the first on and one at a time, all accepted; the
      next one, if any, is beyond the budget or cannot be built, or else the kernel refused
      it, and `st'` is what it left. */
  ghost predicate Applied(env: Env, build: PokeBuilder, st: State, blocks: seq<Fetch>, budget: nat,
          pokes: seq<Block>, st': State) {
    var n, mid := |pokes|, PokeAll(env, st, pokes);
    && n <= |blocks| && n <= budget && AllAccepted(env, st, pokes)
    && (forall i :: 0 <= i < n ==> build(blocks[i]) == Ok(pokes[i]))
    && if n == |blocks| || n == budget || build(blocks[n]).Err? then st' == mid
       else !Accepts(env, mid, build(blocks[n]).value) && st' == Step(env, mid, ScanBlock(build(blocks[n]).value))
  }

  lemma AppliedPrefix(env: Env, build: PokeBuilder, st: State, blocks: seq<Fetch>, budget: nat)
      returns (pokes: seq<Block>)
    ensures Applied(env, build, st, blocks, budget, pokes, ApplyBlocks(env, build, st, blocks, budget))
    ensures |pokes| == CountApplied(env, build, st, blocks, budget)
    decreases blocks
  {
    pokes := [];
    if blocks != [] && budget > 0 && build(blocks[0]).Ok? && Accepts(env, st, build(blocks[0]).value) {
      var b := build(blocks[0]).value;
      var rest := AppliedPrefix(env, build, Step(env, st, ScanBlock(b)), blocks[1..], budget - 1);
      pokes := [b] + rest;
      assert pokes[1..] == rest;
    }
  }

  /** How many blocks are applied. */
  ghost function CountApplied(env: Env, build: PokeBuilder, st: State, blocks: seq<Fetch>, budget: nat): nat
    decreases blocks
  {
    if blocks != [] && budget > 0 && build(blocks[0]).Ok? && Accepts(env, st, build(blocks[0]).value)
    then 1 + CountApplied(env, build, Step(env, st, ScanBlock(build(blocks[0]).value)), blocks[1..], budget - 1)
    else 0
  }

  /** A batch that does not link fails and leaves the kernel as it was; one that does is
      applied from the first block on, and succeeds if that is all of it. */
  ghost predicate BatchOutcome(env: Env, build: PokeBuilder, st: State, blocks: seq<Fetch>, budget: nat,
          ok: bool, st': State) {
    if Broken(st, blocks) then !ok && st' == st
    else exists pokes :: Applied(env, build, st, blocks, budget, pokes, st') && (ok <==> |pokes| == |blocks|)
  }

  lemma {:induction false} BrokenMeans(st: State, blocks: seq<Fetch>)
    ensures Broken(st, blocks) <==> !BatchLinks(GenesisBoot(st.height, PeekDigest(st)), PeekDigest(st), blocks)
  {
    BatchLinksMeans(GenesisBoot(st.height, PeekDigest(st)), PeekDigest(st), blocks);
    if !Broken(st, blocks) {
      forall i: nat | i < |blocks|
        ensures LinkedAt(GenesisBoot(st.height, PeekDigest(st)), PeekDigest(st), blocks, i)
      {
        assert !BrokenAt(st, blocks, i);
      }
    }
  }

  lemma {:induction false} BatchEffect(env: Env, build: PokeBuilder, st: State, blocks: seq<Fetch>, budget: nat,
          ok: bool)
    requires ok <==> !Broken(st, blocks) && CountApplied(env, build, st, blocks, budget) == |blocks|
    ensures BatchOutcome(env, build, st, blocks, budget, ok, ApplyBatch(env, build, st, blocks, budget))
  {
    BrokenMeans(st, blocks);
    var pokes := AppliedPrefix(env, build, st, blocks, budget);
  }

  /** After `i` blocks, all accepted, the kernel is at `cur` and the rest is to be applied. */
  ghost predicate Pending(env: Env, build: PokeBuilder, st: State, blocks: seq<Fetch>, budget: nat, i: nat, cur: State)
    requires i <= |blocks| && i <= budget
  {
    && ApplyBlocks(env, build, st, blocks, budget) == ApplyBlocks(env, build, cur, blocks[i..], budget - i)
    && CountApplied(env, build, st, blocks, budget) == i + CountApplied(env, build, cur, blocks[i..], budget - i)
  }

  lemma {:induction false} PendingStep(env: Env, build: PokeBuilder, st: State, blocks: seq<Fetch>, budget: nat,
          i: nat, cur: State)
    requires i < |blocks| && i <= budget && Pending(env, build, st, blocks, budget, i, cur)
    ensures i == budget || build(blocks[i]).Err? ==>
              ApplyBlocks(env, build, st, blocks, budget) == cur && CountApplied(env, build, st, blocks, budget) == i
    ensures i < budget && build(blocks[i]).Ok? ==>
              var b := build(blocks[i]).value;
              var next := Step(env, cur, ScanBlock(b));
              if Accepts(env, cur, b) then Pending(env, build, st, blocks, budget, i + 1, next)
              else ApplyBlocks(env, build, st, blocks, budget) == next &&
                   CountApplied(env, build, st, blocks, budget) == i
  {
    assert blocks[i..][0] == blocks[i] && blocks[i..][1..] == blocks[i + 1..];
  }

  lemma {:induction false} PendingDone(env: Env, build: PokeBuilder, st: State, blocks: seq<Fetch>, budget: nat,
          cur: State)
    requires |blocks| <= budget && Pending(env, build, st, blocks, budget, |blocks|, cur)
    ensures ApplyBlocks(env, build, st, blocks, budget) == cur
    ensures CountApplied(env, build, st, blocks, budget) == |blocks|
  {
  }

  /** One round of the loop: order, extract, and poke if the outside world lets it through. */
  method PokeFetched(k: Kernel, h: Hull, block: Fetch, through: bool) returns (r: Result<()>)
    modifies k
    ensures !through || BuilderOf(h)(block).Err? ==> r.Err? && k.Current() == old(k.Current())
    ensures through && BuilderOf(h)(block).Ok? ==>
              && k.Current() == Step(k.env, old(k.Current()), ScanBlock(BuilderOf(h)(block).value))
              && (r.Ok? <==> Accepts(k.env, old(k.Current()), BuilderOf(h)(block).value))
  {
    var txIds :- CanonicalZSetTxOrder(h.codec, block.pageTxIds);
    var claims :- ExtractClaims(h, block.details);
    if !through {
      return Err;
    }
    var parent, digest := Value(block.parent, 256), Value(block.pageDigest, 256);
    var effect := k.Poke(ScanBlock(Block(parent, block.height, digest, Atoms(txIds), KernelClaims(claims))));
    if !effect.ScanDone? {
      return Err;
    }
    var _ := k.Poke(OtherCause);
    r := Ok(());
  }

  /** The loop over a validated batch. */
  method PokeEach(k: Kernel, h: Hull, blocks: seq<Fetch>, budget: nat) returns (r: Result<()>)
    modifies k
    ensures k.Current() == ApplyBlocks(k.env, BuilderOf(h), old(k.Current()), blocks, budget)
    ensures r.Ok? <==> CountApplied(k.env, BuilderOf(h), old(k.Current()), blocks, budget) == |blocks|
  {
    ghost var st, build := k.Current(), BuilderOf(h);
    for i := 0 to |blocks|
      invariant i <= budget
      invariant Pending(k.env, build, st, blocks, budget, i, k.Current())
    {
      ghost var cur := k.Current();
      var poked := PokeFetched(k, h, blocks[i], i < budget);
      PendingStep(k.env, build, st, blocks, budget, i, cur);
      if poked.Err? {
        return Err;
      }
    }
    PendingDone(k.env, build, st, blocks, budget, k.Current());
    r := Ok(());
  }

  method ApplyPrefetched(k: Kernel, h: Hull, blocks: seq<Fetch>, budget: nat) returns (r: Result<()>)
    modifies k
    ensures k.Current() == ApplyBatch(k.env, BuilderOf(h), old(k.Current()), blocks, budget)
    ensures BatchOutcome(k.env, BuilderOf(h), old(k.Current()), blocks, budget, r.Ok?, k.Current())
  {
    var peek := k.Current();
    BrokenMeans(peek, blocks);
    if blocks == [] {
      r := Ok(());
    } else {
      var valid := ValidateScanBlockChain(peek.height, PeekDigest(peek), blocks);
      if valid.Err? {
        r := Err;
      } else {
        r := PokeEach(k, h, blocks, budget);
      }
    }
    BatchEffect(k.env, BuilderOf(h), peek, blocks, budget, r.Ok?);
  }

  // ----- hull validation against the kernel's guards -----

  /** Foreign code never traps. */
  ghost predicate TrapFree(env: Env) {
    forall st, b :: !Traps(env, st, b)
  }

  ghost predicate ShortDigests(blocks: seq<Fetch>) {
    forall i :: 0 <= i < |blocks| ==> |blocks[i].parent| <= 40 && |blocks[i].pageDigest| <= 40
  }

  /** `pokes` are what the hull sends for `blocks`. */
  ghost predicate PokesFor(build: PokeBuilder, blocks: seq<Fetch>, pokes: seq<Block>) {
    |pokes| == |blocks| && forall i :: 0 <= i < |blocks| ==> build(blocks[i]) == Ok(pokes[i])
  }

  /** The kernel accepts the pokes before `i` and refuses `i` for its parent. */
  ghost predicate RefusedAt(env: Env, st: State, pokes: seq<Block>, i: nat) {
    i < |pokes| && AllAccepted(env, st, pokes[..i]) && !ParentOk(PokeAll(env, st, pokes[..i]), pokes[i])
  }

  lemma ShortIsWhole(s: Bytes)
    requires |s| <= 40
    ensures Head40(s) == s
  {
  }

  /** The hull's link test on the first block is the kernel's parent test. */
  lemma {:induction false} FirstLink(build: PokeBuilder, st: State, exp: Bytes, block: Fetch, poke: Block)
    requires |exp| <= 40 && Value(exp, 256) == st.digest && |block.parent| <= 40
    requires CopiesHeader(build) && build(block) == Ok(poke)
    ensures ParentOk(st, poke) <==> Boot(st) || SameAtom(block.parent, exp)
  {
    ShortIsWhole(exp);
    ShortIsWhole(block.parent);
  }

  lemma RefusedLater(env: Env, st: State, pokes: seq<Block>, i: nat)
    requires pokes != [] && Accepts(env, st, pokes[0])
    requires RefusedAt(env, Step(env, st, ScanBlock(pokes[0])), pokes[1..], i)
    ensures RefusedAt(env, st, pokes, i + 1)
  {
    assert pokes[..i + 1][1..] == pokes[1..][..i];
  }

  lemma {:induction false} ValidationFrom(env: Env, build: PokeBuilder, st: State, exp: Bytes,
          blocks: seq<Fetch>, pokes: seq<Block>)
    requires TrapFree(env) && CopiesHeader(build) && ShortDigests(blocks) && PokesFor(build, blocks, pokes)
    requires |exp| <= 40 && Value(exp, 256) == st.digest
    requires forall i :: 0 <= i < |blocks| ==> blocks[i].height == Want(st) + i
    ensures BatchLinks(Boot(st), exp, blocks) <==> AllAccepted(env, st, pokes)
    ensures !BatchLinks(Boot(st), exp, blocks) ==> exists i: nat :: RefusedAt(env, st, pokes, i)
    decreases blocks
  {
    if blocks != [] {
      var b := pokes[0];
      assert build(blocks[0]) == Ok(b);
      FirstLink(build, st, exp, blocks[0], b);
      if ParentOk(st, b) {
        assert !Traps(env, st, b) && b.height == Want(st);
        var next := Step(env, st, ScanBlock(b));
        ValidationFrom(env, build, next, blocks[0].pageDigest, blocks[1..], pokes[1..]);
        if !AllAccepted(env, next, pokes[1..]) {
          var i: nat :| RefusedAt(env, next, pokes[1..], i);
          RefusedLater(env, st, pokes, i);
        }
      } else {
        assert RefusedAt(env, st, pokes, 0);
      }
    }
  }

  /** Hull validation matches the kernel: a batch of consecutive blocks from the wanted
      height validates exactly when the kernel accepts every one of its pokes, and when
      it does not, some poke fails the kernel's parent check. */
  lemma {:induction false} HullMatchesKernel(env: Env, build: PokeBuilder, st: State, blocks: seq<Fetch>,
          pokes: seq<Block>)
    requires TrapFree(env) && CopiesHeader(build) && ShortDigests(blocks) && PokesFor(build, blocks, pokes)
    requires |PeekDigest(st)| <= 40
    requires forall i :: 0 <= i < |blocks| ==> blocks[i].height == Want(st) + i
    ensures var valid := BatchLinks(GenesisBoot(st.height, PeekDigest(st)), PeekDigest(st), blocks);
            && (valid <==> AllAccepted(env, st, pokes))
            && (!valid ==> exists i: nat :: RefusedAt(env, st, pokes, i))
  {
    BootSeen(st);
    DigitsRecompose(st.digest, 256);
    ValidationFrom(env, build, st, PeekDigest(st), blocks, pokes);
  }

  ghost predicate GuardsPass(st: State, poke: Block) {
    ParentOk(st, poke) && poke.height == Want(st)
  }

  lemma {:induction false} GuardsFrom(env: Env, build: PokeBuilder, st: State, exp: Bytes, blocks: seq<Fetch>,
          pokes: seq<Block>, i: nat)
    requires CopiesHeader(build) && ShortDigests(blocks) && PokesFor(build, blocks, pokes)
    requires |exp| <= 40 && Value(exp, 256) == st.digest
    requires forall i :: 0 <= i < |blocks| ==> blocks[i].height == Want(st) + i
    requires BatchLinks(Boot(st), exp, blocks) && i < |pokes| && AllAccepted(env, st, pokes[..i])
    ensures GuardsPass(PokeAll(env, st, pokes[..i]), pokes[i])
    decreases i
  {
    assert build(blocks[0]) == Ok(pokes[0]);
    FirstLink(build, st, exp, blocks[0], pokes[0]);
    if i > 0 {
      assert pokes[..i][0] == pokes[0] && pokes[..i][1..] == pokes[1..][..i - 1];
      GuardsFrom(env, build, Step(env, st, ScanBlock(pokes[0])), blocks[0].pageDigest, blocks[1..], pokes[1..], i - 1);
    }
  }

  /** Even where foreign code traps, no poke of a validated batch that is reached, the ones
      before it accepted, fails a guard of the kernel: only a trap can refuse it. */
  lemma {:induction false} ValidatedPassGuards(env: Env, build: PokeBuilder, st: State, blocks: seq<Fetch>,
          pokes: seq<Block>, i: nat)
    requires CopiesHeader(build) && ShortDigests(blocks) && PokesFor(build, blocks, pokes)
    requires |PeekDigest(st)| <= 40
    requires forall i :: 0 <= i < |blocks| ==> blocks[i].height == Want(st) + i
    requires BatchLinks(GenesisBoot(st.height, PeekDigest(st)), PeekDigest(st), blocks)
    requires i < |pokes| && AllAccepted(env, st, pokes[..i])
    ensures var st' := PokeAll(env, st, pokes[..i]);
            GuardsPass(st', pokes[i]) && (Accepts(env, st', pokes[i]) <==> !Traps(env, st', pokes[i]))
  {
    BootSeen(st);
    DigitsRecompose(st.digest, 256);
    GuardsFrom(env, build, st, PeekDigest(st), blocks, pokes, i);
  }

  /** The hull sees the boot cursor exactly when the kernel is at it. */
  lemma BootSeen(st: State)
    requires |PeekDigest(st)| <= 40
    ensures GenesisBoot(st.height, PeekDigest(st)) <==> Boot(st)
  {
    DigitsRecompose(st.digest, 256);
    ShortIsWhole(PeekDigest(st));
    ShortIsWhole(Zeros(40));
    ValuePadded([], 40, 256);
    assert [] + Zeros(40) == Zeros(40);
  }

  // ----- whole runs of the follower -----

  /** One tick: the tip the node reports, the batch limit, and how many pokes the
      outside world lets through before something fails (0 when the fetch fails). */
  datatype Tick = Tick(tip: nat, batchMax: nat, budget: nat)

  /** The chain as the node serves it: the block at each height. */
  type Source = nat -> Fetch

  function FetchAll(source: Source, heights: seq<nat>): (r: seq<Fetch>)
    ensures |r| == |heights| && forall i :: 0 <= i < |heights| ==> r[i] == source(heights[i])
  {
    seq(|heights|, i requires 0 <= i < |heights| => source(heights[i]))
  }

  /** The kernel once the hull, at boot, has poked the genesis prove. */
  ghost function Opened(env: Env, st: State): State {
    if GenesisBoot(st.height, PeekDigest(st)) then Step(env, st, ProveGenesis) else st
  }

  /** The blocks a tick plans and fetches. */
  ghost function Fetched(source: Source, st: State, t: Tick): seq<Fetch> {
    FetchAll(source, Plan(st.height, GenesisBoot(st.height, PeekDigest(st)), t.tip, t.batchMax))
  }

  /** What one tick does to the kernel. */
  ghost function TickState(env: Env, build: PokeBuilder, source: Source, st: State, t: Tick): State {
    ApplyBatch(env, build, Opened(env, st), Fetched(source, st, t), t.budget)
  }

  lemma {:induction false} RowKept(env: Env, build: PokeBuilder, st: State, blocks: seq<Fetch>, budget: nat, k: Digest)
    requires k in st.acc
    ensures k in ApplyBlocks(env, build, st, blocks, budget).acc
    ensures ApplyBlocks(env, build, st, blocks, budget).acc[k] == st.acc[k]
    decreases blocks
  {
    if blocks != [] && budget > 0 && build(blocks[0]).Ok? {
      var b := build(blocks[0]).value;
      ScannerLookup(env.tip5, Seeded(env, st), PageOf(b), b.height, b.claims, k);
      if Accepts(env, st, b) {
        RowKept(env, build, Step(env, st, ScanBlock(b)), blocks[1..], budget - 1, k);
      }
    }
  }

  /** At most the reserved row is new, and the cursor has not moved. */
  ghost predicate OnlySeeded(tip5: Tip5, st: State, st': State) {
    && st'.height == st.height && st'.digest == st.digest
    && (forall k :: k in st.acc ==> k in st'.acc && st'.acc[k] == st.acc[k])
    && forall k :: k in st'.acc && k !in st.acc ==> k == NameKey(tip5, NOCK)
  }

  /** Whatever comes of a tick, one at boot leaves the reserved row there; and if its blocks
      do not link, nothing but that row is new. */
  lemma TickSeeds(env: Env, build: PokeBuilder, source: Source, st: State, t: Tick)
    ensures var st' := TickState(env, build, source, st, t);
            && (GenesisBoot(st.height, PeekDigest(st)) ==> Has(env.tip5, st'.acc, NOCK))
            && (Broken(st, Fetched(source, st, t)) ==> OnlySeeded(env.tip5, st, st'))
  {
    var start, blocks := Opened(env, st), Fetched(source, st, t);
    BrokenMeans(start, blocks);
    assert Broken(start, blocks) <==> Broken(st, blocks) by { BrokenMeans(st, blocks); }
    if GenesisBoot(st.height, PeekDigest(st)) {
      assert Has(env.tip5, start.acc, NOCK);
      RowKept(env, build, start, blocks, t.budget, NameKey(env.tip5, NOCK));
    }
  }

  method ScanOnce(k: Kernel, h: Hull, source: Source, t: Tick) returns (r: Result<()>)
    modifies k
    ensures k.Current() == TickState(k.env, BuilderOf(h), source, old(k.Current()), t)
    ensures BatchOutcome(k.env, BuilderOf(h), Opened(k.env, old(k.Current())), Fetched(source, old(k.Current()), t),
                         t.budget, r.Ok?, k.Current())
    ensures GenesisBoot(old(k.Current()).height, PeekDigest(old(k.Current()))) ==>
              Has(k.env.tip5, k.Current().acc, NOCK)
    ensures Broken(old(k.Current()), Fetched(source, old(k.Current()), t)) ==>
              r.Err? && OnlySeeded(k.env.tip5, old(k.Current()), k.Current())
  {
    var peek := k.Current();
    TickSeeds(k.env, BuilderOf(h), source, peek, t);
    BrokenMeans(peek, Fetched(source, peek, t));
    BrokenMeans(Opened(k.env, peek), Fetched(source, peek, t));
    var atZero := Tip5AtomSemanticEq(PeekDigest(peek), Zeros(40));
    var boot := peek.height == 0 && atZero;
    if boot {
      var _ := k.Poke(ProveGenesis);
    }
    var plan := Plan(peek.height, boot, t.tip, t.batchMax);
    r := ApplyPrefetched(k, h, FetchAll(source, plan), t.budget);
  }
}
