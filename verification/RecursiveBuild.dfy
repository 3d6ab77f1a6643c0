/** The subjects and formulas of the recursive proofs (`recursive-build.hoon`,
    `tracer.hoon`), and what their traces accept. */
module RecursiveBuild {
  import opened Prelude
  import opened Nock
  import opened Tracer
  import opened Accumulator
  import opened Predicates
  import opened Kernel

  // ----- genesis -----

  predicate GenesisRecursiveFormula(tip5: Tip5, acc: Acc, height: nat, digest: nat) {
    Has(tip5, acc, NOCK) && height == GENESIS_HEIGHT && digest == 0
  }

  function GenesisTraceFormula(genesisHeight: nat): Noun {
    CompileTrace([Nonzero(2), Eq(6, genesisHeight), Eq(7, 0)])
  }

  /** Subject and formula; the accumulator's slot is always filled with 1. */
  function BuildGenesisInputs(height: nat, digest: nat): (Noun, Noun) {
    (Cell(Atom(1), Cell(Atom(height), Atom(digest))), GenesisTraceFormula(GENESIS_HEIGHT))
  }

  /** The genesis trace accepts exactly the genesis height with a zero digest. */
  lemma GenesisTraceAccepts(height: nat, digest: nat)
    ensures var (sub, form) := BuildGenesisInputs(height, digest);
            Yields(sub, form, Atom(0)) <==> height == GENESIS_HEIGHT && digest == 0
  {
    var (sub, form) := BuildGenesisInputs(height, digest);
    var spec := [Nonzero(2), Eq(6, GENESIS_HEIGHT), Eq(7, 0)];
    CompileTraceCorrect(spec, sub);
    assert Slot(1, sub) == Some(sub);
    assert Slot(2, sub) == Some(Atom(1));
    assert Slot(3, sub) == Some(sub.tail);
    assert Slot(6, sub) == Some(Atom(height)) && Slot(7, sub) == Some(Atom(digest));
    assert StatusOf(spec[0], sub) == Holds;
    assert StatusOf(spec[1], sub) == Check(height == GENESIS_HEIGHT);
    assert StatusOf(spec[2], sub) == Check(digest == 0);
  }

  /** So it agrees with the host's spec on every accumulator holding the reserved row,
      which is every seeded one; without that row it accepts what the spec refuses. */
  lemma GenesisTraceMeetsSpec(tip5: Tip5, acc: Acc, height: nat, digest: nat)
    ensures var (sub, form) := BuildGenesisInputs(height, digest);
            && (Yields(sub, form, Atom(0)) && !GenesisRecursiveFormula(tip5, acc, height, digest) <==>
                !Has(tip5, acc, NOCK) && height == GENESIS_HEIGHT && digest == 0)
            && (GenesisRecursiveFormula(tip5, acc, height, digest) ==> Yields(sub, form, Atom(0)))
            && (Yields(sub, form, Atom(0)) <==> GenesisRecursiveFormula(tip5, EnsureTld(tip5, acc), height, digest))
  {
    GenesisTraceAccepts(height, digest);
  }

  // ----- transitions -----

  /** A page digest split into its five limbs. */
  function Limbs(d: Digest): seq<Noun> {
    [Atom(d.k0), Atom(d.k1), Atom(d.k2), Atom(d.k3), Atom(d.k4)]
  }

  function EmptyTransitionSubject(prevH: nat, page: Digest, wantH: nat, want: Digest): Noun {
    Tuple([Atom(prevH)] + Limbs(page) + [Atom(wantH)] + Limbs(want))
  }

  function FullItems(proofLen: nat, prevH: nat, page: Digest, accTag: nat, candTag: nat, block: Noun, wantH: nat,
          want: Digest): seq<Noun> {
    [Atom(proofLen), Atom(prevH)] + Limbs(page) + [Atom(accTag), Atom(candTag), block, Atom(wantH)] + Limbs(want)
  }

  function FullTransitionSubject(proofLen: nat, prevH: nat, page: Digest, accTag: nat, candTag: nat, block: Noun,
          wantH: nat, want: Digest): Noun {
    Tuple(FullItems(proofLen, prevH, page, accTag, candTag, block, wantH, want))
  }

  /** Where the slot axes find the parts of a full subject: all but the last limb. */
  lemma FullSubjectSlots(proofLen: nat, prevH: nat, page: Digest, accTag: nat, candTag: nat, block: Noun,
          wantH: nat, want: Digest)
    ensures var s := FullTransitionSubject(proofLen, prevH, page, accTag, candTag, block, wantH, want);
            && Slot(SlotAxis(1), s) == Some(Atom(proofLen)) && Slot(SlotAxis(2), s) == Some(Atom(prevH))
            && DigestAt(s, 3, page) && Slot(SlotAxis(7), s) == Some(Atom(page.k4))
            && Slot(SlotAxis(8), s) == Some(Atom(accTag)) && Slot(SlotAxis(9), s) == Some(Atom(candTag))
            && Slot(SlotAxis(10), s) == Some(block) && Slot(SlotAxis(11), s) == Some(Atom(wantH))
            && DigestAt(s, 12, want)
  {
    var items := FullItems(proofLen, prevH, page, accTag, candTag, block, wantH, want);
    forall n: nat | 1 <= n <= 15 ensures Slot(SlotAxis(n), Tuple(items)) == Some(items[n - 1]) {
      SlotAxisReads(n, items);
    }
  }

  lemma EmptySubjectSlots(prevH: nat, page: Digest, wantH: nat, want: Digest)
    ensures var s := EmptyTransitionSubject(prevH, page, wantH, want);
            && Slot(SlotAxis(1), s) == Some(Atom(prevH))
            && DigestAt(s, 2, page) && Slot(SlotAxis(6), s) == Some(Atom(page.k4))
            && Slot(SlotAxis(7), s) == Some(Atom(wantH)) && DigestAt(s, 8, want)
  {
    var items := [Atom(prevH)] + Limbs(page) + [Atom(wantH)] + Limbs(want);
    forall n: nat | 1 <= n <= 11 ensures Slot(SlotAxis(n), Tuple(items)) == Some(items[n - 1]) {
      SlotAxisReads(n, items);
    }
  }

  /** The first four limbs of `d`, from slot `n` on. */
  predicate DigestAt(s: Noun, n: nat, d: Digest) {
    && Slot(SlotAxis(n), s) == Some(Atom(d.k0)) && Slot(SlotAxis(n + 1), s) == Some(Atom(d.k1))
    && Slot(SlotAxis(n + 2), s) == Some(Atom(d.k2)) && Slot(SlotAxis(n + 3), s) == Some(Atom(d.k3))
  }

  function TransitionTraceFormulaEmpty(wantH: nat): Noun {
    TraceEq(Pick(SlotAxis(7)), Lit(wantH))
  }

  function FullSpec(prevH: nat): seq<Constraint> {
    [Nonzero(SlotAxis(1)), Eq(SlotAxis(2), prevH), Fww(SlotAxis(9), SlotAxis(8))]
  }

  function TransitionTraceFormulaFull(prevH: nat, wantH: nat): Noun {
    CompileTrace(FullSpec(prevH))
  }

  /** The full transition's formula accepts a full subject exactly when the previous
      proof is there, the previous height matches, and the candidate is absent or not
      the accumulator's tag. */
  lemma FullTransitionMeans(proofLen: nat, prevH: nat, page: Digest, accTag: nat, candTag: nat, block: Noun,
          wantH: nat, want: Digest, prevH': nat, wantH': nat)
    ensures Yields(FullTransitionSubject(proofLen, prevH, page, accTag, candTag, block, wantH, want),
                   TransitionTraceFormulaFull(prevH', wantH'), Atom(0)) <==>
            proofLen != 0 && prevH == prevH' && (candTag == 0 || accTag != candTag)
  {
    var items := FullItems(proofLen, prevH, page, accTag, candTag, block, wantH, want);
    var s, spec := Tuple(items), FullSpec(prevH');
    SlotAxisReads(1, items);
    SlotAxisReads(2, items);
    SlotAxisReads(8, items);
    SlotAxisReads(9, items);
    CompileTraceCorrect(spec, s);
    assert StatusOf(spec[0], s) == Check(proofLen != 0);
    assert StatusOf(spec[1], s) == Check(prevH == prevH');
    assert StatusOf(spec[2], s) == if candTag == 0 then Holds else Check(accTag != candTag);
  }

  /** The last digest limb's axis, on the other hand, reads nothing: picking it crashes. */
  lemma LastLimbTraps(proofLen: nat, prevH: nat, page: Digest, accTag: nat, candTag: nat, block: Noun,
          wantH: nat, want: Digest)
    ensures Crashes(FullTransitionSubject(proofLen, prevH, page, accTag, candTag, block, wantH, want),
                    Pick(SlotAxis(16)))
  {
    var items := FullItems(proofLen, prevH, page, accTag, candTag, block, wantH, want);
    SlotAxisReads(16, items);
    assert Eval(1, Tuple(items), Pick(SlotAxis(16))) == Crash;
  }

  lemma EmptyTransitionMeans(prevH: nat, page: Digest, wantH: nat, want: Digest, wantH': nat)
    ensures Yields(EmptyTransitionSubject(prevH, page, wantH, want), TransitionTraceFormulaEmpty(wantH'),
                   Atom(if wantH == wantH' then 0 else 1))
  {
    var items := [Atom(prevH)] + Limbs(page) + [Atom(wantH)] + Limbs(want);
    SlotAxisReads(7, items);
    PicksCompare(2, Tuple(items), SlotAxis(7), Lit(wantH'));
  }

  // ----- the builder -----

  /** What `from-hull-atom` makes of a page digest is outside this model. */
  type FromHullAtom = nat -> Digest

  /** Subject and formula for one block; `None` is the crash on several claims.  `rows`
      is the accumulator in traversal order. */
  function BuildTransitionInputs(tip5: Tip5, split: FromHullAtom, prevProof: Noun, prevH: nat, rows: seq<Row>,
          page: Page, claims: seq<Claim>, block: Noun, wantDigest: nat): Option<(Noun, Noun)> {
    var wantH := prevH + 1;
    if claims == [] then
      Some((EmptyTransitionSubject(prevH, split(page.digest), wantH, split(wantDigest)),
            TransitionTraceFormulaEmpty(wantH)))
    else if |claims| > 1 then None
    else
      var accTag := if rows == [] then 0 else rows[0].0.k0;
      var candTag := NameKey(tip5, claims[0].name).k0;
      var proofLen := if prevProof.Atom? then Met(prevProof.a) else 0;
      Some((FullTransitionSubject(proofLen, prevH, split(page.digest), accTag, candTag, block, wantH,
                                  split(wantDigest)),
            TransitionTraceFormulaFull(prevH, wantH)))
  }

  /** What the transition trace attests of a block, for every input of the builder: an
      empty block always passes; a single claim passes exactly when a previous proof is
      given and the first limb of its key is zero or differs from that of the first row
      walked; more claims cannot be built. */
  lemma TransitionTraceMeans(tip5: Tip5, split: FromHullAtom, prevProof: Noun, prevH: nat, rows: seq<Row>,
          page: Page, claims: seq<Claim>, block: Noun, wantDigest: nat)
    ensures var built := BuildTransitionInputs(tip5, split, prevProof, prevH, rows, page, claims, block, wantDigest);
            && (built.Some? <==> |claims| <= 1)
            && (|claims| == 0 ==> Yields(built.value.0, built.value.1, Atom(0)))
            && (|claims| == 1 ==>
                  var key := NameKey(tip5, claims[0].name);
                  Yields(built.value.0, built.value.1, Atom(0)) <==>
                  && prevProof.Atom? && prevProof.a != 0
                  && (key.k0 == 0 || (if rows == [] then 0 else rows[0].0.k0) != key.k0))
  {
    if |claims| == 0 {
      EmptyTransitionMeans(prevH, split(page.digest), prevH + 1, split(wantDigest), prevH + 1);
    } else if |claims| == 1 {
      var accTag := if rows == [] then 0 else rows[0].0.k0;
      var candTag := NameKey(tip5, claims[0].name).k0;
      var proofLen := if prevProof.Atom? then Met(prevProof.a) else 0;
      FullTransitionMeans(proofLen, prevH, split(page.digest), accTag, candTag, block, prevH + 1,
                          split(wantDigest), prevH, prevH + 1);
    }
  }

  /** `transition-spec` on the wanted height the builder computes.  It also folds the claims
      into a new accumulator, but does not look at it. */
  predicate TransitionSpec(prevProof: Noun, prevH: nat, page: Page, wantH: nat, wantDigest: nat) {
    && prevProof.Atom? && Met(prevProof.a) > 0 && prevH > 0
    && wantH == prevH + 1
    && wantDigest == page.digest
  }

  /** The host spec of transitions and the trace built for them check different things.  A
      block whose trace is accepted meets the spec exactly when the digest is the page's, the
      previous height is not 0, and a previous proof is given even if the block is empty.
      The trace of a block that meets the spec is accepted unless the tags clash. */
  lemma TransitionTraceMeetsSpec(tip5: Tip5, split: FromHullAtom, prevProof: Noun, prevH: nat, rows: seq<Row>,
          page: Page, claims: seq<Claim>, block: Noun, wantDigest: nat)
    ensures var built := BuildTransitionInputs(tip5, split, prevProof, prevH, rows, page, claims, block, wantDigest);
            built.Some? ==>
              var accepted := Yields(built.value.0, built.value.1, Atom(0));
              var spec := TransitionSpec(prevProof, prevH, page, prevH + 1, wantDigest);
              var tagged := claims != [] && NameKey(tip5, claims[0].name).k0 != 0 && rows != [];
              var proven := prevProof.Atom? && prevProof.a != 0;
              && (accepted ==> (spec <==> wantDigest == page.digest && prevH > 0 && (claims == [] ==> proven)))
              && (spec ==> (accepted <==> (tagged ==> rows[0].0.k0 != NameKey(tip5, claims[0].name).k0)))
  {
    TransitionTraceMeans(tip5, split, prevProof, prevH, rows, page, claims, block, wantDigest);
  }
}
