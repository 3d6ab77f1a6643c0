/** What holds of the kernel after any sequence of follower ticks: whatever the tips,
    batch sizes and failures were, it is as if the chain had been poked block by block. */
module FollowerRuns {
  import opened Prelude
  import opened LittleEndian
  import opened Predicates
  import opened Kernel
  import opened KernelRuns
  import opened Chain
  import opened Extraction
  import opened Follower

  ghost function RunTicks(env: Env, build: PokeBuilder, source: Source, st: State, ticks: seq<Tick>): State
    decreases ticks
  {
    if ticks == [] then st else RunTicks(env, build, source, TickState(env, build, source, st, ticks[0]), ticks[1..])
  }

  /** The node serves each height its own block, with 40-byte digests. */
  ghost predicate Serves(source: Source) {
    forall n: nat :: source(n).height == n && |source(n).parent| == 40 && |source(n).pageDigest| == 40
  }

  ghost predicate InRange(t: Tick) {
    t.tip <= U64_MAX && 1 <= t.batchMax <= U64_MAX
  }

  /** `pokes` are the pokes of the first blocks from the genesis height. */
  ghost predicate ChainPrefix(build: PokeBuilder, source: Source, pokes: seq<Block>) {
    forall i :: 0 <= i < |pokes| ==> build(source(GENESIS_HEIGHT + i)) == Ok(pokes[i])
  }

  /** `st` is what poking `pokes` one at a time, all accepted, leads to; before the
      first of them it is the fresh kernel, perhaps with the reserved row. */
  ghost predicate OneAtATime(env: Env, st: State, pokes: seq<Block>) {
    && AllAccepted(env, FRESH, pokes)
    && if pokes == [] then st in {FRESH, FRESH.(acc := TldOnly(env))} else st == PokeAll(env, FRESH, pokes)
  }

  ghost predicate Follows(env: Env, build: PokeBuilder, source: Source, st: State, pokes: seq<Block>) {
    ChainPrefix(build, source, pokes) && OneAtATime(env, st, pokes)
  }

  // ----- one block more -----

  lemma {:induction false} PokeAllAppend(env: Env, st: State, pokes: seq<Block>, b: Block)
    ensures PokeAll(env, st, pokes + [b]) == Step(env, PokeAll(env, st, pokes), ScanBlock(b))
    ensures AllAccepted(env, st, pokes + [b]) <==>
            AllAccepted(env, st, pokes) && Accepts(env, PokeAll(env, st, pokes), b)
    decreases pokes
  {
    if pokes == [] {
      assert ([] + [b])[1..] == [];
    } else {
      assert (pokes + [b])[1..] == pokes[1..] + [b];
      PokeAllAppend(env, Step(env, st, ScanBlock(pokes[0])), pokes[1..], b);
    }
  }

  lemma {:induction false} PokeAllCursor(env: Env, st: State, pokes: seq<Block>)
    requires AllAccepted(env, st, pokes) && pokes != []
    ensures var last, out := pokes[|pokes| - 1], PokeAll(env, st, pokes);
            out.height == last.height == Want(st) + |pokes| - 1 && out.digest == last.digest
    decreases pokes
  {
    if |pokes| > 1 {
      PokeAllCursor(env, Step(env, st, ScanBlock(pokes[0])), pokes[1..]);
    }
  }

  /** The cursor of a state that follows the chain: its height counts the blocks, and
      its digest fits in 40 bytes, so the hull reads boot as the kernel does. */
  lemma FollowsCursor(env: Env, build: PokeBuilder, source: Source, st: State, pokes: seq<Block>)
    requires CopiesHeader(build) && Serves(source) && Follows(env, build, source, st, pokes)
    ensures |PeekDigest(st)| <= 40
    ensures Boot(st) <==> pokes == []
    ensures Want(st) == GENESIS_HEIGHT + |pokes|
    ensures GenesisBoot(st.height, PeekDigest(st)) <==> Boot(st)
    ensures pokes != [] ==>
              st.height == GENESIS_HEIGHT + |pokes| - 1 && st.digest == Value(source(st.height).pageDigest, 256)
  {
    if pokes != [] {
      PokeAllCursor(env, FRESH, pokes);
      var d := source(st.height).pageDigest;
      assert build(source(GENESIS_HEIGHT + (|pokes| - 1))) == Ok(pokes[|pokes| - 1]);
      DigitsDropZeros(d);
    }
    BootSeen(st);
  }

  lemma FollowsOneMore(env: Env, build: PokeBuilder, source: Source, st: State, pokes: seq<Block>, b: Block)
    requires CopiesHeader(build) && Serves(source) && Follows(env, build, source, st, pokes)
    requires build(source(GENESIS_HEIGHT + |pokes|)) == Ok(b)
    ensures Follows(env, build, source, Step(env, st, ScanBlock(b)), if Accepts(env, st, b) then pokes + [b] else pokes)
  {
    FollowsCursor(env, build, source, st, pokes);
    TldInserted(env);
    PokeAllAppend(env, FRESH, pokes, b);
  }

  // ----- batches and ticks -----

  /** Applying part of the chain from the wanted height on follows the chain further. */
  lemma ApplyFollows(env: Env, build: PokeBuilder, source: Source, st: State, pokes: seq<Block>,
          blocks: seq<Fetch>, budget: nat)
      returns (pokes': seq<Block>)
    requires CopiesHeader(build) && Serves(source) && Follows(env, build, source, st, pokes)
    requires forall i :: 0 <= i < |blocks| ==> blocks[i] == source(GENESIS_HEIGHT + |pokes| + i)
    ensures Follows(env, build, source, ApplyBlocks(env, build, st, blocks, budget), pokes')
    ensures |pokes| <= |pokes'| <= |pokes| + |blocks|
    decreases blocks
  {
    if blocks == [] || budget == 0 || build(blocks[0]).Err? {
      pokes' := pokes;
    } else {
      var b := build(blocks[0]).value;
      var next := Step(env, st, ScanBlock(b));
      assert blocks[0] == source(GENESIS_HEIGHT + |pokes| + 0);
      FollowsOneMore(env, build, source, st, pokes, b);
      if Accepts(env, st, b) {
        var more, rest := pokes + [b], blocks[1..];
        forall i | 0 <= i < |rest| ensures rest[i] == source(GENESIS_HEIGHT + |more| + i) {
          assert rest[i] == blocks[i + 1];
        }
        pokes' := ApplyFollows(env, build, source, next, more, rest, budget - 1);
      } else {
        pokes' := pokes;
      }
    }
  }

  function SeededState(env: Env, st: State): State {
    if Boot(st) then Step(env, st, ProveGenesis) else st
  }

  function Planned(source: Source, st: State, t: Tick): seq<Fetch> {
    FetchAll(source, Plan(st.height, Boot(st), t.tip, t.batchMax))
  }

  lemma SeedFollows(env: Env, build: PokeBuilder, source: Source, st: State, pokes: seq<Block>)
    requires CopiesHeader(build) && Serves(source) && Follows(env, build, source, st, pokes)
    ensures Boot(st) ==> Follows(env, build, source, Step(env, st, ProveGenesis), pokes)
  {
    FollowsCursor(env, build, source, st, pokes);
    TldInserted(env);
  }

  lemma PlanFetched(source: Source, st: State, t: Tick)
    requires InRange(t) && st.height <= U64_MAX
    ensures var blocks := Planned(source, st, t);
            && (forall i :: 0 <= i < |blocks| ==> blocks[i] == source(Want(st) + i))
            && (blocks != [] ==> Want(st) + |blocks| - 1 + FINALITY_DEPTH <= t.tip)
  {
    var plan := Plan(st.height, Boot(st), t.tip, t.batchMax);
    PlanIsFinal(st, t.tip, t.batchMax);
    if plan != [] {
      assert plan[|plan| - 1] == Want(st) + |plan| - 1;
    }
  }

  /** A tick, told in the kernel's terms. */
  lemma TickUnfolds(env: Env, build: PokeBuilder, source: Source, st: State, t: Tick)
    requires GenesisBoot(st.height, PeekDigest(st)) <==> Boot(st)
    ensures TickState(env, build, source, st, t) ==
            ApplyBatch(env, build, SeededState(env, st), Planned(source, st, t), t.budget)
  {
  }

  // ----- finality, whatever the nodes serve -----

  /** One tick and what the node serves during it.  Nothing ties it to the next: the chain
      may have changed, and a block need not have the height it was asked for. */
  datatype Visit = Visit(source: Source, tick: Tick)

  ghost function RunVisits(env: Env, build: PokeBuilder, st: State, visits: seq<Visit>): State
    decreases visits
  {
    if visits == [] then st
    else RunVisits(env, build, TickState(env, build, visits[0].source, st, visits[0].tick), visits[1..])
  }

  ghost predicate DigestsFit(source: Source) {
    forall n: nat :: |source(n).pageDigest| <= 40
  }

  ghost predicate ObservedAt(v: Visit, highest: nat) {
    DigestsFit(v.source) && InRange(v.tick) && v.tick.tip <= highest
  }

  /** No tip above `highest` was reported. */
  ghost predicate Observed(visits: seq<Visit>, highest: nat) {
    forall i :: 0 <= i < |visits| ==> ObservedAt(visits[i], highest)
  }

  /** The cursor is `FINALITY_DEPTH` below `highest`, and the hull can read it. */
  ghost predicate Below(st: State, highest: nat) {
    |PeekDigest(st)| <= 40 && (Boot(st) || st.height + FINALITY_DEPTH <= highest)
  }

  lemma {:induction false} ApplyBelow(env: Env, build: PokeBuilder, st: State, blocks: seq<Fetch>, budget: nat,
          highest: nat)
    requires CopiesHeader(build) && Below(st, highest)
    requires forall i :: 0 <= i < |blocks| ==> |blocks[i].pageDigest| <= 40
    requires blocks != [] ==> Want(st) + |blocks| - 1 + FINALITY_DEPTH <= highest
    ensures Below(ApplyBlocks(env, build, st, blocks, budget), highest)
    ensures st.height <= ApplyBlocks(env, build, st, blocks, budget).height
    decreases blocks
  {
    if blocks != [] && budget > 0 && build(blocks[0]).Ok? {
      var b := build(blocks[0]).value;
      if Accepts(env, st, b) {
        DigitsDropZeros(blocks[0].pageDigest);
        ApplyBelow(env, build, Step(env, st, ScanBlock(b)), blocks[1..], budget - 1, highest);
      }
    }
  }

  lemma TickBelow(env: Env, build: PokeBuilder, st: State, v: Visit, highest: nat)
    requires CopiesHeader(build) && ObservedAt(v, highest) && highest <= U64_MAX && Below(st, highest)
    ensures var st' := TickState(env, build, v.source, st, v.tick); Below(st', highest) && st.height <= st'.height
  {
    BootSeen(st);
    TickUnfolds(env, build, v.source, st, v.tick);
    PlanFetched(v.source, st, v.tick);
    ApplyBelow(env, build, SeededState(env, st), Planned(v.source, st, v.tick), v.tick.budget, highest);
  }

  lemma {:induction false} VisitsBelow(env: Env, build: PokeBuilder, st: State, visits: seq<Visit>, highest: nat)
    requires CopiesHeader(build) && highest <= U64_MAX && Below(st, highest)
    requires Observed(visits, highest)
    ensures var st' := RunVisits(env, build, st, visits); Below(st', highest) && st.height <= st'.height
    decreases visits
  {
    if visits != [] {
      TickBelow(env, build, st, visits[0], highest);
      VisitsBelow(env, build, TickState(env, build, visits[0].source, st, visits[0].tick), visits[1..], highest);
    }
  }

  /** Tips are u64s, so the bound need be no more than that either. */
  lemma ObservedAsU64(visits: seq<Visit>, highest: nat)
    requires Observed(visits, highest)
    ensures Observed(visits, if highest < U64_MAX then highest else U64_MAX)
  {
    forall i | 0 <= i < |visits| ensures ObservedAt(visits[i], if highest < U64_MAX then highest else U64_MAX) {
      assert ObservedAt(visits[i], highest);
    }
  }

  /** Finality over every run: past boot the cursor is at least ten below the highest tip
      ever observed, and it never goes back, whatever the nodes serve from one tick to the
      next. */
  lemma {:induction false} FinalityOverRuns(env: Env, build: PokeBuilder, first: seq<Visit>, more: seq<Visit>,
          highest: nat)
    requires CopiesHeader(build) && Observed(first, highest) && Observed(more, highest)
    ensures var early, late := RunVisits(env, build, FRESH, first), RunVisits(env, build, FRESH, first + more);
            early.height <= late.height && (Boot(late) || late.height + 10 <= highest)
  {
    var bound := if highest < U64_MAX then highest else U64_MAX;
    DigitsRecompose(FRESH.digest, 256);
    ObservedAsU64(first, highest);
    ObservedAsU64(more, highest);
    VisitsBelow(env, build, FRESH, first, bound);
    VisitsBelow(env, build, RunVisits(env, build, FRESH, first), more, bound);
    VisitsAppend(env, build, FRESH, first, more);
  }

  lemma {:induction false} VisitsAppend(env: Env, build: PokeBuilder, st: State, first: seq<Visit>, more: seq<Visit>)
    ensures RunVisits(env, build, st, first + more) == RunVisits(env, build, RunVisits(env, build, st, first), more)
    decreases first
  {
    if first == [] {
      assert first + more == more;
    } else {
      assert (first + more)[1..] == first[1..] + more;
      VisitsAppend(env, build, TickState(env, build, first[0].source, st, first[0].tick), first[1..], more);
    }
  }

  /** A run against one node is such a run. */
  lemma TicksAreVisits(env: Env, build: PokeBuilder, source: Source, st: State, ticks: seq<Tick>)
      returns (visits: seq<Visit>)
    ensures |visits| == |ticks| && forall i :: 0 <= i < |ticks| ==> visits[i] == Visit(source, ticks[i])
    ensures RunTicks(env, build, source, st, ticks) == RunVisits(env, build, st, visits)
    decreases ticks
  {
    if ticks == [] {
      visits := [];
    } else {
      var rest := TicksAreVisits(env, build, source, TickState(env, build, source, st, ticks[0]), ticks[1..]);
      visits := [Visit(source, ticks[0])] + rest;
      assert visits[1..] == rest;
    }
  }

  // ----- ticks against one chain -----

  lemma BatchFollows(env: Env, build: PokeBuilder, source: Source, st: State, pokes: seq<Block>,
          blocks: seq<Fetch>, budget: nat)
      returns (pokes': seq<Block>)
    requires CopiesHeader(build) && Serves(source) && Follows(env, build, source, st, pokes)
    requires forall i :: 0 <= i < |blocks| ==> blocks[i] == source(GENESIS_HEIGHT + |pokes| + i)
    ensures Follows(env, build, source, ApplyBatch(env, build, st, blocks, budget), pokes')
    ensures |pokes| <= |pokes'| <= |pokes| + |blocks|
  {
    if BatchLinks(GenesisBoot(st.height, PeekDigest(st)), PeekDigest(st), blocks) {
      pokes' := ApplyFollows(env, build, source, st, pokes, blocks, budget);
    } else {
      pokes' := pokes;
    }
  }

  /** What a tick plans is the next stretch of the chain, below the depth of its tip. */
  lemma PlanFollows(env: Env, build: PokeBuilder, source: Source, st: State, pokes: seq<Block>, t: Tick)
      returns (blocks: seq<Fetch>)
    requires CopiesHeader(build) && Serves(source) && InRange(t)
    requires st.height <= U64_MAX && Follows(env, build, source, st, pokes)
    ensures blocks == Planned(source, st, t) && Follows(env, build, source, SeededState(env, st), pokes)
    ensures forall i :: 0 <= i < |blocks| ==> blocks[i] == source(GENESIS_HEIGHT + |pokes| + i)
    ensures blocks != [] ==> GENESIS_HEIGHT + |pokes| + |blocks| - 1 + FINALITY_DEPTH <= t.tip
  {
    FollowsCursor(env, build, source, st, pokes);
    SeedFollows(env, build, source, st, pokes);
    PlanFetched(source, st, t);
    blocks := Planned(source, st, t);
  }

  /** A tick moves along the chain, and never past the depth its own tip allows. */
  lemma TickFollows(env: Env, build: PokeBuilder, source: Source, st: State, pokes: seq<Block>, t: Tick)
      returns (pokes': seq<Block>)
    requires CopiesHeader(build) && Serves(source) && InRange(t)
    requires st.height <= U64_MAX && Follows(env, build, source, st, pokes)
    ensures Follows(env, build, source, TickState(env, build, source, st, t), pokes')
    ensures |pokes| <= |pokes'|
    ensures |pokes'| > |pokes| ==> TickState(env, build, source, st, t).height + FINALITY_DEPTH <= t.tip
  {
    FollowsCursor(env, build, source, st, pokes);
    TickUnfolds(env, build, source, st, t);
    var blocks := PlanFollows(env, build, source, st, pokes, t);
    pokes' := BatchFollows(env, build, source, SeededState(env, st), pokes, blocks, t.budget);
    FollowsCursor(env, build, source, ApplyBatch(env, build, SeededState(env, st), blocks, t.budget), pokes');
  }

  lemma RunFollows(env: Env, build: PokeBuilder, source: Source, st: State, pokes: seq<Block>, ticks: seq<Tick>)
      returns (pokes': seq<Block>)
    requires CopiesHeader(build) && Serves(source) && Follows(env, build, source, st, pokes)
    requires forall i :: 0 <= i < |ticks| ==> InRange(ticks[i])
    requires Below(st, U64_MAX)
    ensures Follows(env, build, source, RunTicks(env, build, source, st, ticks), pokes')
    decreases ticks
  {
    if ticks == [] {
      pokes' := pokes;
    } else {
      var mid := TickFollows(env, build, source, st, pokes, ticks[0]);
      TickBelow(env, build, st, Visit(source, ticks[0]), U64_MAX);
      pokes' := RunFollows(env, build, source, TickState(env, build, source, st, ticks[0]), mid, ticks[1..]);
    }
  }

  /** Batch independence: after any ticks the kernel is where poking the first blocks of
      the chain one at a time, in order, each exactly once, would have brought it. */
  lemma TicksPokeInOrder(env: Env, build: PokeBuilder, source: Source, ticks: seq<Tick>)
      returns (pokes: seq<Block>)
    requires CopiesHeader(build) && Serves(source) && forall i :: 0 <= i < |ticks| ==> InRange(ticks[i])
    ensures var st := RunTicks(env, build, source, FRESH, ticks);
            && Follows(env, build, source, st, pokes)
            && Want(st) == GENESIS_HEIGHT + |pokes|
            && (pokes == [] <==> Boot(st))
  {
    assert OneAtATime(env, FRESH, []);
    DigitsRecompose(FRESH.digest, 256);
    pokes := RunFollows(env, build, source, FRESH, [], ticks);
    FollowsCursor(env, build, source, RunTicks(env, build, source, FRESH, ticks), pokes);
  }

  /** Two followers at the same height past boot are in the same state, however each got there. */
  lemma {:induction false} BatchIndependence(env: Env, build: PokeBuilder, source: Source, ticks: seq<Tick>,
          ticks': seq<Tick>)
    requires CopiesHeader(build) && Serves(source)
    requires forall i :: 0 <= i < |ticks| ==> InRange(ticks[i])
    requires forall i :: 0 <= i < |ticks'| ==> InRange(ticks'[i])
    ensures var st, st' := RunTicks(env, build, source, FRESH, ticks), RunTicks(env, build, source, FRESH, ticks');
            st.height == st'.height && !Boot(st) && !Boot(st') ==> st == st'
  {
    var a := TicksPokeInOrder(env, build, source, ticks);
    var b := TicksPokeInOrder(env, build, source, ticks');
    var st, st' := RunTicks(env, build, source, FRESH, ticks), RunTicks(env, build, source, FRESH, ticks');
    if st.height == st'.height && !Boot(st) && !Boot(st') {
      assert |a| == |b|;
      forall i | 0 <= i < |a| ensures a[i] == b[i] {
        assert build(source(GENESIS_HEIGHT + i)) == Ok(a[i]);
      }
      assert a == b;
    }
  }

  // ----- progress -----

  ghost predicate LinkAbove(source: Source, n: nat) {
    SameAtom(source(n + 1).parent, source(n).pageDigest)
  }

  ghost predicate Pokeable(build: PokeBuilder, source: Source, n: nat) {
    build(source(n)).Ok?
  }

  /** Consecutive blocks of the served chain link, and every one of them can be poked. */
  ghost predicate WellLinked(build: PokeBuilder, source: Source) {
    forall n: nat :: n >= GENESIS_HEIGHT ==> LinkAbove(source, n) && Pokeable(build, source, n)
  }

  ghost predicate LinkAt(blocks: seq<Fetch>, i: nat) {
    0 < i < |blocks| && SameAtom(blocks[i].parent, blocks[i - 1].pageDigest)
  }

  ghost predicate Neighbours(blocks: seq<Fetch>) {
    forall i: nat :: 0 < i < |blocks| ==> LinkAt(blocks, i)
  }

  lemma {:induction false} NeighboursLink(boot: bool, exp: Bytes, blocks: seq<Fetch>)
    requires Neighbours(blocks)
    requires blocks != [] ==> boot || SameAtom(blocks[0].parent, exp)
    ensures BatchLinks(boot, exp, blocks)
    decreases blocks
  {
    if blocks != [] {
      var rest := blocks[1..];
      forall i: nat | 0 < i < |rest| ensures LinkAt(rest, i) {
        assert LinkAt(blocks, i + 1);
      }
      assert |blocks| > 1 ==> LinkAt(blocks, 1);
      NeighboursLink(false, blocks[0].pageDigest, rest);
    }
  }

  lemma ServedNeighbours(source: Source, build: PokeBuilder, blocks: seq<Fetch>, from: nat)
    requires WellLinked(build, source) && from >= GENESIS_HEIGHT
    requires forall i :: 0 <= i < |blocks| ==> blocks[i] == source(from + i)
    ensures Neighbours(blocks)
  {
    forall i: nat | 0 < i < |blocks| ensures LinkAt(blocks, i) {
      assert LinkAbove(source, from + (i - 1));
      assert blocks[i] == source(from + i) && blocks[i - 1] == source(from + (i - 1));
    }
  }

  lemma {:induction false} ApplyAll(env: Env, build: PokeBuilder, st: State, blocks: seq<Fetch>,
          pokes: seq<Block>, budget: nat)
    requires PokesFor(build, blocks, pokes) && AllAccepted(env, st, pokes) && budget >= |blocks|
    ensures ApplyBlocks(env, build, st, blocks, budget) == PokeAll(env, st, pokes)
    decreases blocks
  {
    if blocks != [] {
      assert build(blocks[0]) == Ok(pokes[0]);
      ApplyAll(env, build, Step(env, st, ScanBlock(pokes[0])), blocks[1..], pokes[1..], budget - 1);
    }
  }

  /** On a linked chain a planned batch validates, and the kernel accepts all of it. */
  lemma {:induction false} PlannedBatchAccepted(env: Env, build: PokeBuilder, source: Source, st: State,
          pokes: seq<Block>, blocks: seq<Fetch>, next: seq<Block>)
    requires TrapFree(env) && CopiesHeader(build) && Serves(source) && WellLinked(build, source)
    requires Follows(env, build, source, st, pokes)
    requires forall i :: 0 <= i < |blocks| ==> blocks[i] == source(GENESIS_HEIGHT + |pokes| + i)
    requires PokesFor(build, blocks, next)
    ensures BatchLinks(GenesisBoot(st.height, PeekDigest(st)), PeekDigest(st), blocks)
    ensures AllAccepted(env, st, next)
  {
    var from := GENESIS_HEIGHT + |pokes|;
    FollowsCursor(env, build, source, st, pokes);
    if pokes != [] { NextBlockLinks(env, build, source, st, pokes); }
    ServedNeighbours(source, build, blocks, from);
    assert blocks != [] ==> blocks[0] == source(from + 0);
    NeighboursLink(Boot(st), PeekDigest(st), blocks);
    ServedShape(source, blocks, from);
    HullMatchesKernel(env, build, st, blocks, next);
  }

  lemma ServedShape(source: Source, blocks: seq<Fetch>, from: nat)
    requires Serves(source) && forall i :: 0 <= i < |blocks| ==> blocks[i] == source(from + i)
    ensures ShortDigests(blocks) && forall i :: 0 <= i < |blocks| ==> blocks[i].height == from + i
  {
  }

  lemma NextBlockLinks(env: Env, build: PokeBuilder, source: Source, st: State, pokes: seq<Block>)
    requires CopiesHeader(build) && Serves(source) && WellLinked(build, source)
    requires Follows(env, build, source, st, pokes) && pokes != []
    ensures SameAtom(source(GENESIS_HEIGHT + |pokes|).parent, PeekDigest(st))
  {
    var tip := GENESIS_HEIGHT + |pokes| - 1;
    FollowsCursor(env, build, source, st, pokes);
    DigitsRecompose(st.digest, 256);
    ShortIsWhole(PeekDigest(st));
    ShortIsWhole(source(tip).pageDigest);
    assert LinkAbove(source, tip);
  }

  lemma PokesOfServed(build: PokeBuilder, source: Source, from: nat, blocks: seq<Fetch>)
      returns (next: seq<Block>)
    requires WellLinked(build, source) && from >= GENESIS_HEIGHT
    requires forall i :: 0 <= i < |blocks| ==> blocks[i] == source(from + i)
    ensures PokesFor(build, blocks, next)
  {
    next := [];
    while |next| < |blocks|
      invariant |next| <= |blocks|
      invariant forall i :: 0 <= i < |next| ==> build(blocks[i]) == Ok(next[i])
    {
      var n := |next|;
      assert Pokeable(build, source, from + n) && blocks[n] == source(from + n);
      next := next + [build(blocks[n]).value];
    }
  }

  lemma BatchAdvances(env: Env, build: PokeBuilder, source: Source, st: State, pokes: seq<Block>,
          blocks: seq<Fetch>, budget: nat)
    requires TrapFree(env) && CopiesHeader(build) && Serves(source) && WellLinked(build, source)
    requires Follows(env, build, source, st, pokes)
    requires forall i :: 0 <= i < |blocks| ==> blocks[i] == source(GENESIS_HEIGHT + |pokes| + i)
    requires blocks != [] && budget >= |blocks|
    ensures ApplyBatch(env, build, st, blocks, budget).height == GENESIS_HEIGHT + |pokes| + |blocks| - 1
  {
    var next := PokesOfServed(build, source, GENESIS_HEIGHT + |pokes|, blocks);
    PlannedBatchAccepted(env, build, source, st, pokes, blocks, next);
    ApplyAll(env, build, st, blocks, next, budget);
    PokeAllCursor(env, st, next);
    FollowsCursor(env, build, source, st, pokes);
  }

  /** Progress: on a linked chain, a tick that nothing interrupts applies its whole plan,
      which reaches the last final height or fills the batch. */
  lemma UninterruptedTickAdvances(env: Env, build: PokeBuilder, source: Source, st: State, pokes: seq<Block>,
          t: Tick)
    requires TrapFree(env) && CopiesHeader(build) && Serves(source) && WellLinked(build, source)
    requires InRange(t) && t.budget >= t.batchMax
    requires st.height <= U64_MAX && Follows(env, build, source, st, pokes)
    requires Want(st) + FINALITY_DEPTH <= t.tip
    ensures var st' := TickState(env, build, source, st, t);
            st'.height + FINALITY_DEPTH == t.tip || st'.height == Want(st) + t.batchMax - 1
  {
    FollowsCursor(env, build, source, st, pokes);
    TickUnfolds(env, build, source, st, t);
    PlannedLength(source, st, t);
    var blocks := PlanFollows(env, build, source, st, pokes, t);
    BatchAdvances(env, build, source, SeededState(env, st), pokes, blocks, t.budget);
  }

  lemma PlannedLength(source: Source, st: State, t: Tick)
    requires InRange(t) && st.height <= U64_MAX && Want(st) + FINALITY_DEPTH <= t.tip
    ensures var n := |Planned(source, st, t)|;
            0 < n <= t.batchMax && (n == t.batchMax || Want(st) + n - 1 + FINALITY_DEPTH == t.tip)
  {
    PlanIsFinal(st, t.tip, t.batchMax);
    PlanFetched(source, st, t);
  }
}
