/** The kernel state machine: the `%scan-block` and `%prove-recursive-genesis` arms of `app.hoon`. */
module Kernel {
  import opened Accumulator
  import opened Predicates

  const GENESIS_HEIGHT: nat := 63_000

  /** The cord `nock`, name and owner of the reserved row. */
  const NOCK: nat := 0x6b63_6f6e

  /** What the kernel takes from code outside the repository: the Tip5 digest, the
      accumulator root built on it, and whether either computation traps. */
  datatype Env = Env(
    tip5: Tip5,
    rootAtom: Acc -> nat,
    scanTraps: (Acc, Page, nat, seq<Claim>) -> bool,
    rootTraps: Acc -> bool)

  /** The fields of `v0-state` that scanning reads and writes. */
  datatype State = State(acc: Acc, height: nat, digest: nat)

  const FRESH := State(map[], 0, 0)

  datatype Block = Block(parent: nat, height: nat, digest: nat, txIds: seq<nat>, claims: seq<Claim>)

  /** A poke: a block to scan, the genesis prove, or any other cause (none of which
      touches the scanning fields). */
  datatype Cause = ScanBlock(block: Block) | ProveGenesis | OtherCause

  datatype ScanError = ParentMismatch | HeightNotSuccessor | ClaimScannerTrap | AccumulatorRootTrap

  datatype Effect = ScanFailed(error: ScanError) | ScanDone(height: nat, digest: nat, root: nat) | NoScanEffect

  function PageOf(b: Block): Page {
    Page(b.digest, b.txIds)
  }

  function TldEntry(): Entry {
    Entry(NOCK, NOCK, 1, GENESIS_HEIGHT, 0)
  }

  function EnsureTld(tip5: Tip5, acc: Acc): Acc {
    if Has(tip5, acc, NOCK) then acc else Insert(tip5, acc, NOCK, TldEntry())
  }

  predicate Boot(st: State) {
    st.height == 0 && st.digest == 0
  }

  /** The height the next block must have. */
  function Want(st: State): nat {
    if Boot(st) && st.height + 1 < GENESIS_HEIGHT then GENESIS_HEIGHT else st.height + 1
  }

  /** The accumulator a block is folded into. */
  function Seeded(env: Env, st: State): Acc {
    if Boot(st) then EnsureTld(env.tip5, st.acc) else st.acc
  }

  predicate ParentOk(st: State, b: Block) {
    Boot(st) || b.parent == st.digest
  }

  function FoldBlock(env: Env, acc: Acc, b: Block): Acc {
    ClaimScanner(env.tip5, acc, PageOf(b), b.height, b.claims)
  }

  /** Foreign code traps while this block is being folded in. */
  predicate Traps(env: Env, st: State, b: Block) {
    var acc := Seeded(env, st);
    env.scanTraps(acc, PageOf(b), b.height, b.claims) || env.rootTraps(FoldBlock(env, acc, b))
  }

  predicate Accepts(env: Env, st: State, b: Block) {
    ParentOk(st, b) && b.height == Want(st) && !Traps(env, st, b)
  }

  /** The state after a poke.  A rejected block may still have seeded the reserved row. */
  function Step(env: Env, st: State, c: Cause): State {
    match c
    case OtherCause => st
    case ProveGenesis => st.(acc := EnsureTld(env.tip5, st.acc))
    case ScanBlock(b) =>
      if Accepts(env, st, b) then State(FoldBlock(env, Seeded(env, st), b), b.height, b.digest)
      else if ParentOk(st, b) then st.(acc := Seeded(env, st))
      else st
  }

  class Kernel {
    const env: Env
    var accumulator: Acc
    var lastProvedHeight: nat
    var lastProvedDigest: nat

    constructor (env: Env)
      ensures this.env == env && Current() == FRESH
    {
      this.env := env;
      accumulator, lastProvedHeight, lastProvedDigest := map[], 0, 0;
    }

    function Current(): State
      reads this
    {
      State(accumulator, lastProvedHeight, lastProvedDigest)
    }

    method Poke(cause: Cause) returns (effect: Effect)
      modifies this
      ensures Current() == Step(env, old(Current()), cause)
      ensures cause.ScanBlock? ==> (effect.ScanDone? <==> Accepts(env, old(Current()), cause.block))
      ensures effect == ScanFailed(ParentMismatch) <==> cause.ScanBlock? && !ParentOk(old(Current()), cause.block)
      ensures effect == ScanFailed(HeightNotSuccessor) <==>
              cause.ScanBlock? && ParentOk(old(Current()), cause.block) && cause.block.height != Want(old(Current()))
      ensures effect.ScanDone? ==>
              effect.height == lastProvedHeight && effect.digest == lastProvedDigest &&
              effect.root == env.rootAtom(accumulator)
    {
      match cause
      case OtherCause =>
        effect := NoScanEffect;
      case ProveGenesis =>
        accumulator := EnsureTld(env.tip5, accumulator);
        effect := NoScanEffect;
      case ScanBlock(c) =>
        effect := Scan(c);
    }

    method Scan(c: Block) returns (effect: Effect)
      modifies this
      ensures Current() == Step(env, old(Current()), ScanBlock(c))
      ensures effect.ScanDone? <==> Accepts(env, old(Current()), c)
      ensures effect == ScanFailed(ParentMismatch) <==> !ParentOk(old(Current()), c)
      ensures effect == ScanFailed(HeightNotSuccessor) <==>
              ParentOk(old(Current()), c) && c.height != Want(old(Current()))
      ensures effect != NoScanEffect
      ensures effect.ScanDone? ==>
              effect.height == lastProvedHeight && effect.digest == lastProvedDigest &&
              effect.root == env.rootAtom(accumulator)
    {
      var boot := lastProvedHeight == 0 && lastProvedDigest == 0;
      if !(boot || c.parent == lastProvedDigest) {
        return ScanFailed(ParentMismatch);
      }
      if boot {
        accumulator := EnsureTld(env.tip5, accumulator);
      }
      var wantHeight := lastProvedHeight + 1;
      if boot && wantHeight < GENESIS_HEIGHT {
        wantHeight := GENESIS_HEIGHT;
      }
      if c.height != wantHeight {
        return ScanFailed(HeightNotSuccessor);
      }
      if env.scanTraps(accumulator, PageOf(c), c.height, c.claims) {
        return ScanFailed(ClaimScannerTrap);
      }
      var newAcc := ClaimScanner(env.tip5, accumulator, PageOf(c), c.height, c.claims);
      if env.rootTraps(newAcc) {
        return ScanFailed(AccumulatorRootTrap);
      }
      accumulator := newAcc;
      lastProvedHeight := c.height;
      lastProvedDigest := c.digest;
      effect := ScanDone(c.height, c.digest, env.rootAtom(newAcc));
    }
  }
}
