/** Slot addressing and the constraint-to-formula compiler of `tracer.hoon`. */
module Tracer {
  import opened Prelude
  import opened Nock
  import opened OpcodeScan

  // ----- slot addressing -----

  function Pow2(n: nat): (r: nat)
    ensures r >= 1
  {
    if n == 0 then 1 else 2 * Pow2(n - 1)
  }

  function SlotAxis(slot: nat): nat {
    Pow2(slot + 1) - 2
  }

  /** A `:*` tuple: cells nested to the right, the last item bare. */
  function Tuple(items: seq<Noun>): Noun
    requires items != []
  {
    if |items| == 1 then items[0] else Cell(items[0], Tuple(items[1..]))
  }

  lemma {:induction false} TailAxis(n: nat, items: seq<Noun>)
    requires n < |items|
    ensures Slot(Pow2(n + 1) - 1, Tuple(items)) == Some(Tuple(items[n..]))
  {
    if n == 0 {
      assert items[0..] == items;
    } else {
      TailAxis(n - 1, items);
      assert (Pow2(n + 1) - 1) / 2 == Pow2(n) - 1;
      assert items[n - 1..][1..] == items[n..];
    }
  }

  /** `slot-axis n` reads item `n` of a tuple that has an item after it.  On the last
      item it reads the head of that item instead, and crashes when it is an atom. */
  lemma {:induction false} SlotAxisReads(n: nat, items: seq<Noun>)
    requires 1 <= n <= |items|
    ensures Slot(SlotAxis(n), Tuple(items)) ==
            if n < |items| then Some(items[n - 1])
            else if items[n - 1].Cell? then Some(items[n - 1].head) else None
  {
    TailAxis(n - 1, items);
    assert SlotAxis(n) == 2 * (Pow2(n) - 1);
    assert SlotAxis(n) / 2 == Pow2(n) - 1 && SlotAxis(n) > 1;
  }

  // ----- trace primitives -----

  function Pick(axis: nat): Noun {
    Cell(Atom(0), Atom(axis))
  }

  function Lit(x: nat): Noun {
    Cell(Atom(1), Atom(x))
  }

  function TraceEq(a: Noun, b: Noun): Noun {
    Cell(Atom(5), Cell(a, b))
  }

  function Branch(test: Noun, yes: Noun, no: Noun): Noun {
    Cell(Atom(6), Cell(test, Cell(yes, no)))
  }

  function TraceAnd(p: Noun, q: Noun): Noun {
    Branch(p, Branch(q, Lit(0), Lit(1)), Lit(1))
  }

  function TraceNonzero(axis: nat): Noun {
    Branch(TraceEq(Pick(axis), Lit(0)), Lit(1), Lit(0))
  }

  function TraceEqLimbPairs(pairs: seq<(nat, nat)>): Noun {
    if pairs == [] then Lit(1)
    else TraceAnd(TraceEq(Pick(pairs[0].0), Pick(pairs[0].1)), TraceEqLimbPairs(pairs[1..]))
  }

  function TraceFww(candAxis: nat, accAxis: nat): Noun {
    Branch(TraceEq(Pick(candAxis), Lit(0)), Lit(0),
           Branch(TraceEq(Pick(accAxis), Pick(candAxis)), Lit(1), Lit(0)))
  }

  datatype Constraint =
    | Nonzero(axis: nat)
    | Eq(axis: nat, lit: nat)
    | EqDigestLimbs(pairs: seq<(nat, nat)>)
    | Fww(candAxis: nat, accAxis: nat)

  function Node(c: Constraint): Noun {
    match c
    case Nonzero(axis) => TraceNonzero(axis)
    case Eq(axis, lit) => TraceEq(Pick(axis), Lit(lit))
    case EqDigestLimbs(pairs) => TraceEqLimbPairs(pairs)
    case Fww(candAxis, accAxis) => TraceFww(candAxis, accAxis)
  }

  function CompileTrace(spec: seq<Constraint>): Noun {
    if spec == [] then Lit(1)
    else if |spec| == 1 then Node(spec[0])
    else TraceAnd(Node(spec[0]), CompileTrace(spec[1..]))
  }

  // ----- what a constraint says of a subject -----

  datatype Status = Holds | Fails | Missing

  function Present(s: Noun, axis: nat): bool {
    Slot(axis, s).Some?
  }

  function Check(b: bool): Status {
    if b then Holds else Fails
  }

  /** The first pair, if any, that is not two present and equal fragments; the
      compiled conjunction ends in "no" even when there is none. */
  function LimbStatus(pairs: seq<(nat, nat)>, s: Noun): Status {
    if pairs == [] then Fails
    else
      var (p, w) := pairs[0];
      if !Present(s, p) || !Present(s, w) then Missing
      else if Slot(p, s) != Slot(w, s) then Fails
      else LimbStatus(pairs[1..], s)
  }

  function StatusOf(c: Constraint, s: Noun): Status {
    match c
    case Nonzero(axis) =>
      if !Present(s, axis) then Missing else Check(Slot(axis, s) != Some(Atom(0)))
    case Eq(axis, lit) =>
      if !Present(s, axis) then Missing else Check(Slot(axis, s) == Some(Atom(lit)))
    case EqDigestLimbs(pairs) =>
      LimbStatus(pairs, s)
    case Fww(cand, acc) =>
      if !Present(s, cand) then Missing
      else if Slot(cand, s) == Some(Atom(0)) then Holds
      else if !Present(s, acc) then Missing
      else Check(Slot(acc, s) != Slot(cand, s))
  }

  function Answer(st: Status): Outcome {
    match st
    case Holds => Product(Atom(0))
    case Fails => Product(Atom(1))
    case Missing => Crash
  }

  /** Left to right, the first status that is not `Holds`. */
  function Verdict(spec: seq<Constraint>, s: Noun): Status {
    if spec == [] then Holds
    else if StatusOf(spec[0], s) != Holds then StatusOf(spec[0], s)
    else Verdict(spec[1..], s)
  }

  /** Position `i` decides the list with status `st`: everything before it holds. */
  ghost predicate DecidedAt(spec: seq<Constraint>, s: Noun, i: nat, st: Status) {
    && i < |spec| && StatusOf(spec[i], s) == st != Holds
    && forall j :: 0 <= j < i ==> StatusOf(spec[j], s) == Holds
  }

  // ----- compiler correctness -----

  function PairsFuel(n: nat): nat {
    if n == 0 then 1 else 2 + PairsFuel(n - 1)
  }

  function NodeFuel(c: Constraint): nat {
    if c.EqDigestLimbs? then 3 + PairsFuel(|c.pairs|) else 4
  }

  function TraceFuel(spec: seq<Constraint>): nat {
    if spec == [] then 1 else NodeFuel(spec[0]) + 2 + TraceFuel(spec[1..])
  }

  lemma {:induction false} PicksCompare(fuel: nat, s: Noun, a: nat, b: Noun)
    requires fuel >= 2
    ensures b.Cell? && b.head == Atom(0) && b.tail.Atom? ==>
              Eval(fuel, s, TraceEq(Pick(a), b)) ==
              if !Present(s, a) || !Present(s, b.tail.a) then Crash
              else Product(Atom(if Slot(a, s) == Slot(b.tail.a, s) then 0 else 1))
    ensures b.Cell? && b.head == Atom(1) ==>
              Eval(fuel, s, TraceEq(Pick(a), b)) ==
              if !Present(s, a) then Crash
              else Product(Atom(if Slot(a, s) == Some(b.tail) then 0 else 1))
  {
    assert Eval(fuel - 1, s, Pick(a)) == OrCrash(Slot(a, s));
    if b.Cell? && b.head == Atom(0) && b.tail.Atom? {
      assert Eval(fuel - 1, s, b) == OrCrash(Slot(b.tail.a, s));
    } else if b.Cell? && b.head == Atom(1) {
      assert Eval(fuel - 1, s, b) == Product(b.tail);
    }
  }

  lemma {:induction false} AndRuns(fuel: nat, s: Noun, p: Noun, q: Noun)
    requires fuel >= 3
    requires Eval(fuel - 1, s, p) in {Product(Atom(0)), Product(Atom(1)), Crash}
    requires Eval(fuel - 1, s, p) == Product(Atom(0)) ==>
               Eval(fuel - 2, s, q) in {Product(Atom(0)), Product(Atom(1)), Crash}
    ensures Eval(fuel, s, TraceAnd(p, q)) ==
            if Eval(fuel - 1, s, p) == Product(Atom(0)) then Eval(fuel - 2, s, q) else Eval(fuel - 1, s, p)
  {
    var inner := Branch(q, Lit(0), Lit(1));
    assert Eval(fuel - 1, s, Lit(1)) == Product(Atom(1));
    assert Eval(fuel - 2, s, Lit(0)) == Product(Atom(0));
    assert Eval(fuel - 2, s, Lit(1)) == Product(Atom(1));
    if Eval(fuel - 1, s, p) == Product(Atom(0)) {
      assert Eval(fuel - 1, s, inner) == Eval(fuel - 2, s, q);
    }
  }

  lemma {:induction false} LimbPairsRun(fuel: nat, s: Noun, pairs: seq<(nat, nat)>)
    requires fuel >= 2 + PairsFuel(|pairs|)
    ensures Eval(fuel, s, TraceEqLimbPairs(pairs)) == Answer(LimbStatus(pairs, s))
  {
    if pairs != [] {
      var (p, w) := pairs[0];
      PicksCompare(fuel - 1, s, p, Pick(w));
      LimbPairsRun(fuel - 2, s, pairs[1..]);
      AndRuns(fuel, s, TraceEq(Pick(p), Pick(w)), TraceEqLimbPairs(pairs[1..]));
    }
  }

  lemma {:induction false} NodeRuns(fuel: nat, s: Noun, c: Constraint)
    requires fuel >= NodeFuel(c)
    ensures Eval(fuel, s, Node(c)) == Answer(StatusOf(c, s))
  {
    match c
    case Nonzero(axis) =>
      PicksCompare(fuel - 1, s, axis, Lit(0));
    case Eq(axis, lit) =>
      PicksCompare(fuel, s, axis, Lit(lit));
    case EqDigestLimbs(pairs) =>
      LimbPairsRun(fuel, s, pairs);
    case Fww(cand, acc) =>
      PicksCompare(fuel - 1, s, cand, Lit(0));
      PicksCompare(fuel - 2, s, acc, Pick(cand));
      var inner := Branch(TraceEq(Pick(acc), Pick(cand)), Lit(1), Lit(0));
      assert Eval(fuel - 2, s, Lit(0)) == Product(Atom(0)) && Eval(fuel - 2, s, Lit(1)) == Product(Atom(1));
      assert Present(s, cand) ==>
          Eval(fuel - 1, s, inner) == if !Present(s, acc) then Crash else Answer(Check(Slot(acc, s) != Slot(cand, s)));
  }

  lemma {:induction false} CompileTraceRuns(fuel: nat, spec: seq<Constraint>, s: Noun)
    requires spec != [] && fuel >= TraceFuel(spec)
    ensures Eval(fuel, s, CompileTrace(spec)) == Answer(Verdict(spec, s))
    decreases spec
  {
    var first, rest := spec[0], spec[1..];
    if rest == [] {
      NodeRuns(fuel, s, first);
    } else {
      NodeRuns(fuel - 1, s, first);
      CompileTraceRuns(fuel - 2, rest, s);
      AndRuns(fuel, s, Node(first), CompileTrace(rest));
    }
  }

  lemma {:induction false} VerdictIsFirst(spec: seq<Constraint>, s: Noun, st: Status)
    ensures Verdict(spec, s) == st <==>
            if st == Holds then forall i :: 0 <= i < |spec| ==> StatusOf(spec[i], s) == Holds
            else exists i: nat :: DecidedAt(spec, s, i, st)
  {
    if spec != [] {
      var rest := spec[1..];
      VerdictIsFirst(rest, s, st);
      assert forall i :: 0 < i < |spec| ==> spec[i] == rest[i - 1];
      if StatusOf(spec[0], s) != Holds {
        assert DecidedAt(spec, s, 0, StatusOf(spec[0], s));
      } else if st != Holds {
        if Verdict(rest, s) == st {
          var i: nat :| DecidedAt(rest, s, i, st);
          assert DecidedAt(spec, s, i + 1, st);
        }
        forall i: nat | DecidedAt(spec, s, i, st) ensures Verdict(rest, s) == st {
          assert DecidedAt(rest, s, i - 1, st);
        }
      }
    }
  }

  /** Compiler correctness: the formula of a non-empty constraint list answers 0
      exactly when every constraint holds; it answers 1 exactly when the first that
      does not hold fails, and crashes exactly when that one reads a missing axis. */
  lemma {:induction false} CompileTraceCorrect(spec: seq<Constraint>, s: Noun)
    requires spec != []
    ensures Yields(s, CompileTrace(spec), Atom(0)) <==>
            forall i :: 0 <= i < |spec| ==> StatusOf(spec[i], s) == Holds
    ensures Yields(s, CompileTrace(spec), Atom(1)) <==> exists i: nat :: DecidedAt(spec, s, i, Fails)
    ensures Crashes(s, CompileTrace(spec)) <==> exists i: nat :: DecidedAt(spec, s, i, Missing)
  {
    VerdictIsFirst(spec, s, Holds);
    VerdictIsFirst(spec, s, Fails);
    VerdictIsFirst(spec, s, Missing);
    TraceOutcome(TraceFuel(spec), s, CompileTrace(spec), spec);
  }

  lemma {:induction false} TraceOutcome(fuel: nat, s: Noun, f: Noun, spec: seq<Constraint>)
    requires spec != [] && f == CompileTrace(spec) && fuel == TraceFuel(spec)
    ensures Yields(s, f, Atom(0)) <==> Verdict(spec, s) == Holds
    ensures Yields(s, f, Atom(1)) <==> Verdict(spec, s) == Fails
    ensures Crashes(s, f) <==> Verdict(spec, s) == Missing
  {
    CompileTraceRuns(fuel, spec, s);
    var out := Eval(fuel, s, f);
    if out.Product? {
      assert Yields(s, f, out.noun);
      OutcomeUnique(s, f, out.noun);
    } else {
      assert Crashes(s, f);
      forall p ensures !Yields(s, f, p) {
        if Yields(s, f, p) { OutcomeUnique(s, f, p); }
      }
    }
  }

  /** The trace of no constraints says "no". */
  lemma EmptyTraceRefuses(s: Noun)
    ensures forall p :: Yields(s, CompileTrace([]), p) <==> p == Atom(1)
  {
    assert Eval(1, s, CompileTrace([])) == Product(Atom(1));
    OutcomeUnique(s, CompileTrace([]), Atom(1));
  }

  /** `trace-succeeded`, the dry-run test on a product. */
  predicate TraceSucceeded(product: Noun) {
    product != Cell(Atom(1), Atom(1))
  }

  /** The dry-run test cannot tell: every product of a compiled trace passes it, though
      only 0 means that the constraints hold. */
  lemma {:induction false} TraceSucceededIsBlind(spec: seq<Constraint>, s: Noun, p: Noun)
    requires spec != [] && Yields(s, CompileTrace(spec), p)
    ensures TraceSucceeded(p)
    ensures p == Atom(0) <==> forall i :: 0 <= i < |spec| ==> StatusOf(spec[i], s) == Holds
  {
    CompileTraceCorrect(spec, s);
    CompileTraceRuns(TraceFuel(spec), spec, s);
    OutcomeUnique(s, CompileTrace(spec), p);
  }

  /** A digest-limb constraint never holds, whatever the limbs: the compiler closes
      the conjunction with the "no" literal. */
  lemma {:induction false} DigestLimbsNeverHold(pairs: seq<(nat, nat)>, s: Noun)
    ensures StatusOf(EqDigestLimbs(pairs), s) != Holds
    ensures (forall i :: 0 <= i < |pairs| ==> Present(s, pairs[i].0) && Slot(pairs[i].0, s) == Slot(pairs[i].1, s)) ==>
              Yields(s, CompileTrace([EqDigestLimbs(pairs)]), Atom(1))
    decreases pairs
  {
    if pairs != [] {
      DigestLimbsNeverHold(pairs[1..], s);
    }
    NodeRuns(NodeFuel(EqDigestLimbs(pairs)), s, EqDigestLimbs(pairs));
    if forall i :: 0 <= i < |pairs| ==> Present(s, pairs[i].0) && Slot(pairs[i].0, s) == Slot(pairs[i].1, s) {
      AllPairsEqual(pairs, s);
    }
  }

  lemma {:induction false} AllPairsEqual(pairs: seq<(nat, nat)>, s: Noun)
    requires forall i :: 0 <= i < |pairs| ==> Present(s, pairs[i].0) && Slot(pairs[i].0, s) == Slot(pairs[i].1, s)
    ensures LimbStatus(pairs, s) == Fails
  {
    if pairs != [] {
      AllPairsEqual(pairs[1..], s);
    }
  }

  /** Compiled traces stay inside the 0-8 fragment. */
  lemma {:induction false} CompileTraceClean(spec: seq<Constraint>)
    ensures !Banned(CompileTrace(spec)) && CompileTrace(spec).Cell?
  {
    if spec != [] {
      NodeClean(spec[0]);
      CompileTraceClean(spec[1..]);
      AndClean(Node(spec[0]), CompileTrace(spec[1..]));
    }
  }

  lemma {:induction false} BranchClean(test: Noun, yes: Noun, no: Noun)
    requires test.Cell? && yes.Cell? && no.Cell?
    requires !Banned(test) && !Banned(yes) && !Banned(no)
    ensures !Banned(Branch(test, yes, no))
  {
    assert !Banned(Cell(yes, no));
    Op2Clean(6, test, Cell(yes, no));
  }

  lemma {:induction false} AndClean(p: Noun, q: Noun)
    requires p.Cell? && q.Cell? && !Banned(p) && !Banned(q)
    ensures !Banned(TraceAnd(p, q))
  {
    BranchClean(q, Lit(0), Lit(1));
    BranchClean(p, Branch(q, Lit(0), Lit(1)), Lit(1));
  }

  lemma NodeClean(c: Constraint)
    ensures !Banned(Node(c)) && Node(c).Cell?
  {
    match c
    case Nonzero(axis) =>
      Op2Clean(5, Pick(axis), Lit(0));
      BranchClean(TraceEq(Pick(axis), Lit(0)), Lit(1), Lit(0));
    case Eq(axis, lit) =>
      Op2Clean(5, Pick(axis), Lit(lit));
    case EqDigestLimbs(pairs) =>
      LimbPairsClean(pairs);
    case Fww(cand, acc) =>
      Op2Clean(5, Pick(cand), Lit(0));
      Op2Clean(5, Pick(acc), Pick(cand));
      BranchClean(TraceEq(Pick(acc), Pick(cand)), Lit(1), Lit(0));
      BranchClean(TraceEq(Pick(cand), Lit(0)), Lit(0), Branch(TraceEq(Pick(acc), Pick(cand)), Lit(1), Lit(0)));
  }

  lemma {:induction false} LimbPairsClean(pairs: seq<(nat, nat)>)
    ensures !Banned(TraceEqLimbPairs(pairs)) && TraceEqLimbPairs(pairs).Cell?
  {
    if pairs != [] {
      LimbPairsClean(pairs[1..]);
      Op2Clean(5, Pick(pairs[0].0), Pick(pairs[0].1));
      AndClean(TraceEq(Pick(pairs[0].0), Pick(pairs[0].1)), TraceEqLimbPairs(pairs[1..]));
    }
  }
}
