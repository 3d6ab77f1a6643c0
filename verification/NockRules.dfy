/** The evaluator against the reduction rules of Nock 4K, which know nothing of fuel. */
module NockRules {
  import opened Prelude
  import opened Nock
  import opened Normalizer

  /** `*[s f]` is `p` by the rule for the shape of `f`. */
  ghost predicate ByRule(s: Noun, f: Noun, p: Noun) {
    f.Cell? &&
    if f.head.Cell? then p.Cell? && Yields(s, f.head, p.head) && Yields(s, f.tail, p.tail)
    else
      var op, x := f.head.a, f.tail;
      if op == 0 then x.Atom? && Slot(x.a, s) == Some(p)
      else if op == 1 then p == x
      else if op == 3 then exists q :: Yields(s, x, q) && p == Atom(if q.Cell? then 0 else 1)
      else if op == 4 then exists n: nat :: Yields(s, x, Atom(n)) && p == Atom(n + 1)
      else x.Cell? && PairRule(s, op, x.head, x.tail, p)
  }

  ghost predicate PairRule(s: Noun, op: nat, b: Noun, c: Noun, p: Noun) {
    if op == 2 then exists t, g :: Yields(s, b, t) && Yields(s, c, g) && Yields(t, g, p)
    else if op == 5 then exists x, y :: Yields(s, b, x) && Yields(s, c, y) && p == Atom(if x == y then 0 else 1)
    else if op == 6 then
      c.Cell? && ((Yields(s, b, Atom(0)) && Yields(s, c.head, p)) || (Yields(s, b, Atom(1)) && Yields(s, c.tail, p)))
    else if op == 7 then exists t :: Yields(s, b, t) && Yields(t, c, p)
    else if op == 8 then exists t :: Yields(s, b, t) && Yields(Cell(t, s), c, p)
    else if op == 9 then
      b.Atom? && exists core :: Yields(s, c, core) && Slot(b.a, core).Some? && Yields(core, Slot(b.a, core).value, p)
    else if op == 10 then
      && b.Cell? && b.head.Atom?
      && exists t, v :: Yields(s, c, t) && Yields(s, b.tail, v) && Edit(b.head.a, v, t) == Some(p)
    else op == 11 && (b.Cell? ==> exists q :: Yields(s, b.tail, q)) && Yields(s, c, p)
  }

  lemma Later(s: Noun, f: Noun, p: Noun) returns (enough: nat)
    requires Yields(s, f, p)
    ensures Ends(enough, s, f, Product(p))
  {
    enough :| Eval(enough, s, f) == Product(p);
    Settled(enough, s, f);
  }

  lemma {:induction false} Reached(enough: nat, s: Noun, f: Noun, p: Noun)
    requires Eval(enough, s, f) == Product(p)
    ensures Yields(s, f, p)
  {
  }

  /** The evaluator yields what the rules do, and nothing else. */
  lemma NockByRules(s: Noun, f: Noun, p: Noun)
    ensures Yields(s, f, p) <==> ByRule(s, f, p)
  {
    if Yields(s, f, p) {
      var fuel: nat :| Eval(fuel, s, f) == Product(p);
      RuleApplied(fuel, s, f, p);
    }
    if ByRule(s, f, p) { RuleYields(s, f, p); }
  }

  lemma {:induction false} RuleApplied(fuel: nat, s: Noun, f: Noun, p: Noun)
    requires Eval(fuel, s, f) == Product(p)
    ensures ByRule(s, f, p)
  {
    var l: nat := fuel - 1;
    if f.head.Cell? {
      Reached(l, s, f.head, p.head);
      Reached(l, s, f.tail, p.tail);
    } else if f.head.a == 3 || f.head.a == 4 {
      Reached(l, s, f.tail, Eval(l, s, f.tail).noun);
    } else if f.head.a > 1 {
      PairApplied(fuel, s, f, p);
    }
  }

  lemma {:induction false} PairApplied(fuel: nat, s: Noun, f: Noun, p: Noun)
    requires Eval(fuel, s, f) == Product(p)
    requires f.head.Atom? && f.head.a !in {0, 1, 3, 4}
    ensures f.tail.Cell? && PairRule(s, f.head.a, f.tail.head, f.tail.tail, p)
  {
    var l: nat, op, b, c := fuel - 1, f.head.a, f.tail.head, f.tail.tail;
    if op < 9 {
      Reached(l, s, b, Eval(l, s, b).noun);
      if op == 2 || op == 5 { Reached(l, s, c, Eval(l, s, c).noun); }
    } else {
      LatePairApplied(fuel, s, f, p);
    }
  }

  lemma {:induction false} LatePairApplied(fuel: nat, s: Noun, f: Noun, p: Noun)
    requires Eval(fuel, s, f) == Product(p)
    requires f.head.Atom? && f.head.a >= 9
    ensures f.tail.Cell? && PairRule(s, f.head.a, f.tail.head, f.tail.tail, p)
  {
    var l: nat, op, b, c := fuel - 1, f.head.a, f.tail.head, f.tail.tail;
    Reached(l, s, c, Eval(l, s, c).noun);
    if op == 9 {
      var core := Eval(l, s, c).noun;
      Reached(l, core, Slot(b.a, core).value, p);
    } else if b.Cell? {
      Reached(l, s, b.tail, Eval(l, s, b.tail).noun);
    }
  }

  lemma RuleYields(s: Noun, f: Noun, p: Noun)
    requires ByRule(s, f, p)
    ensures Yields(s, f, p)
  {
    if f.head.Cell? {
      var i := Later(s, f.head, p.head);
      var j := Later(s, f.tail, p.tail);
      Reached(Max(i, j) + 1, s, f, p);
    } else if f.head.a == 0 || f.head.a == 1 {
      Reached(1, s, f, p);
    } else if f.head.a == 3 {
      var q :| Yields(s, f.tail, q) && p == Atom(if q.Cell? then 0 else 1);
      var i := Later(s, f.tail, q);
      Reached(i + 1, s, f, p);
    } else if f.head.a == 4 {
      var n: nat :| Yields(s, f.tail, Atom(n)) && p == Atom(n + 1);
      var i := Later(s, f.tail, Atom(n));
      Reached(i + 1, s, f, p);
    } else {
      PairYields(s, f.head.a, f.tail.head, f.tail.tail, p);
    }
  }

  lemma PairYields(s: Noun, op: nat, b: Noun, c: Noun, p: Noun)
    requires op !in {0, 1, 3, 4} && PairRule(s, op, b, c, p)
    ensures Yields(s, Op2(op, b, c), p)
  {
    if op == 2 {
      var t, g :| Yields(s, b, t) && Yields(s, c, g) && Yields(t, g, p);
      var i := Later(s, b, t);
      var j := Later(s, c, g);
      var k := Later(t, g, p);
      Reached(Max(Max(i, j), k) + 1, s, Op2(op, b, c), p);
    } else if op == 5 {
      var x, y :| Yields(s, b, x) && Yields(s, c, y) && p == Atom(if x == y then 0 else 1);
      var i := Later(s, b, x);
      var j := Later(s, c, y);
      Reached(Max(i, j) + 1, s, Op2(op, b, c), p);
    } else if op == 6 {
      var yes := Yields(s, b, Atom(0)) && Yields(s, c.head, p);
      var i := Later(s, b, Atom(if yes then 0 else 1));
      var j := Later(s, if yes then c.head else c.tail, p);
      Reached(Max(i, j) + 1, s, Op2(op, b, c), p);
    } else if op == 7 || op == 8 {
      var t :| Yields(s, b, t) && Yields(if op == 7 then t else Cell(t, s), c, p);
      var i := Later(s, b, t);
      var j := Later(if op == 7 then t else Cell(t, s), c, p);
      Reached(Max(i, j) + 1, s, Op2(op, b, c), p);
    } else {
      LatePairYields(s, op, b, c, p);
    }
  }

  lemma LatePairYields(s: Noun, op: nat, b: Noun, c: Noun, p: Noun)
    requires op >= 9 && PairRule(s, op, b, c, p)
    ensures Yields(s, Op2(op, b, c), p)
  {
    if op == 9 {
      var core :| Yields(s, c, core) && Slot(b.a, core).Some? && Yields(core, Slot(b.a, core).value, p);
      var i := Later(s, c, core);
      var j := Later(core, Slot(b.a, core).value, p);
      Reached(Max(i, j) + 1, s, Op2(op, b, c), p);
    } else if op == 10 {
      var t, v :| Yields(s, c, t) && Yields(s, b.tail, v) && Edit(b.head.a, v, t) == Some(p);
      var i := Later(s, c, t);
      var j := Later(s, b.tail, v);
      Reached(Max(i, j) + 1, s, Op2(op, b, c), p);
    } else if b.Cell? {
      var q :| Yields(s, b.tail, q);
      var i := Later(s, b.tail, q);
      var j := Later(s, c, p);
      Reached(Max(i, j) + 1, s, Op2(op, b, c), p);
    } else {
      var i := Later(s, c, p);
      Reached(i + 1, s, Op2(op, b, c), p);
    }
  }

  // ----- a program: decrement -----

  /** `[9 2 core]`, or what the rewriter makes of it. */
  function Call(rewritten: bool, core: Noun): Noun {
    if rewritten then Op2(7, core, Op2(2, Op1(0, Atom(1)), Op1(0, Atom(2)))) else Op2(9, Atom(2), core)
  }

  /** `6 [5 [0 7] 4 0 6] [0 6] 9 2 [0 2] [4 0 6] 0 7`: count up until the next number is the argument. */
  function Battery(rewritten: bool): Noun {
    var next := Cell(Op1(0, Atom(2)), Cell(Op1(4, Op1(0, Atom(6))), Op1(0, Atom(7))));
    Cell(Atom(6), Cell(Op2(5, Op1(0, Atom(7)), Op1(4, Op1(0, Atom(6)))),
                       Cell(Op1(0, Atom(6)), Call(rewritten, next))))
  }

  /** The decrement of the Nock tutorials. */
  function Decrement(rewritten: bool): Noun {
    Op2(8, Op1(1, Atom(0)), Op2(8, Op1(1, Battery(rewritten)), Call(rewritten, Op1(0, Atom(1)))))
  }

  function Core(battery: Noun, i: nat, n: nat): Noun {
    Cell(battery, Cell(Atom(i), Atom(n)))
  }

  lemma {:induction false} Fetched(s: Noun, axis: nat, v: Noun)
    requires Slot(axis, s) == Some(v)
    ensures Yields(s, Op1(0, Atom(axis)), v)
  {
    RuleYields(s, Op1(0, Atom(axis)), v);
  }

  lemma CoreAxes(battery: Noun, i: nat, n: nat)
    ensures var s := Core(battery, i, n);
            && Slot(1, s) == Some(s) && Slot(2, s) == Some(battery)
            && Slot(6, s) == Some(Atom(i)) && Slot(7, s) == Some(Atom(n))
  {
    var s := Core(battery, i, n);
    assert Slot(1, s) == Some(s);
    assert Slot(3, s) == Some(s.tail);
  }

  /** A call of the arm at axis 2, in either form, runs it on its core. */
  lemma Called(rewritten: bool, s: Noun, f: Noun, core: Noun, p: Noun)
    requires Yields(s, f, core) && core.Cell? && Yields(core, core.head, p)
    ensures Yields(s, Call(rewritten, f), p)
  {
    assert Slot(1, core) == Some(core);
    assert Slot(2, core) == Some(core.head);
    if rewritten {
      Fetched(core, 1, core);
      Fetched(core, 2, core.head);
      PairYields(core, 2, Op1(0, Atom(1)), Op1(0, Atom(2)), p);
      PairYields(s, 7, f, Op2(2, Op1(0, Atom(1)), Op1(0, Atom(2))), p);
    } else {
      PairYields(s, 9, Atom(2), f, p);
    }
  }

  lemma CountsUp(rewritten: bool, i: nat, n: nat)
    requires i < n
    ensures Yields(Core(Battery(rewritten), i, n), Battery(rewritten), Atom(n - 1))
    decreases n - i
  {
    var battery := Battery(rewritten);
    var s := Core(battery, i, n);
    var up := Op1(4, Op1(0, Atom(6)));
    CoreAxes(battery, i, n);
    Fetched(s, 2, battery);
    Fetched(s, 6, Atom(i));
    Fetched(s, 7, Atom(n));
    RuleYields(s, up, Atom(i + 1));
    PairYields(s, 5, Op1(0, Atom(7)), up, Atom(if Atom(n) == Atom(i + 1) then 0 else 1));
    if i + 1 < n {
      RuleYields(s, Cell(up, Op1(0, Atom(7))), Cell(Atom(i + 1), Atom(n)));
      RuleYields(s, Cell(Op1(0, Atom(2)), Cell(up, Op1(0, Atom(7)))), Core(battery, i + 1, n));
      CountsUp(rewritten, i + 1, n);
      Called(rewritten, s, Cell(Op1(0, Atom(2)), Cell(up, Op1(0, Atom(7)))), Core(battery, i + 1, n), Atom(n - 1));
    }
    PairYields(s, 6, battery.tail.head, battery.tail.tail, Atom(n - 1));
  }

  /** Nock's decrement yields the number before, and so does its rewriting, although the
      rewriter changes the battery that the formula quotes. */
  lemma DecrementYields(n: nat)
    requires n > 0
    ensures Yields(Atom(n), Decrement(false), Atom(n - 1))
    ensures AxesPositive(Decrement(false)) && Normalize(Decrement(false)) == Decrement(true)
    ensures Yields(Atom(n), Normalize(Decrement(false)), Atom(n - 1))
  {
    DecrementRuns(false, n);
    DecrementRuns(true, n);
    DecrementRewritten();
  }

  lemma DecrementRuns(rewritten: bool, n: nat)
    requires n > 0
    ensures Yields(Atom(n), Decrement(rewritten), Atom(n - 1))
  {
    var battery := Battery(rewritten);
    var s0, s := Cell(Atom(0), Atom(n)), Core(battery, 0, n);
    var call := Call(rewritten, Op1(0, Atom(1)));
    CountsUp(rewritten, 0, n);
    CoreAxes(battery, 0, n);
    Fetched(s, 1, s);
    Called(rewritten, s, Op1(0, Atom(1)), s, Atom(n - 1));
    RuleYields(s0, Op1(1, battery), battery);
    PairYields(s0, 8, Op1(1, battery), call, Atom(n - 1));
    RuleYields(Atom(n), Op1(1, Atom(0)), Atom(0));
    PairYields(Atom(n), 8, Op1(1, Atom(0)), Op2(8, Op1(1, battery), call), Atom(n - 1));
  }

  lemma FetchFixed(axis: nat)
    ensures AxesPositive(Op1(0, Atom(axis))) && Normalize(Op1(0, Atom(axis))) == Op1(0, Atom(axis))
  {
    assert Children(Op1(0, Atom(axis))) == [];
  }

  lemma {:induction false} CallRewritten(f: Noun)
    requires AxesPositive(f) && Normalize(f) == f
    ensures AxesPositive(Call(false, f)) && Normalize(Call(false, f)) == Call(true, f)
  {
    assert Children(Call(false, f)) == [f];
  }

  lemma BatteryRewritten()
    ensures AxesPositive(Battery(false)) && Normalize(Battery(false)) == Battery(true)
  {
    FetchFixed(2);
    FetchFixed(6);
    FetchFixed(7);
    var up := Op1(4, Op1(0, Atom(6)));
    assert Children(up) == [Op1(0, Atom(6))] && Normalize(up) == up;
    var pair := Cell(up, Op1(0, Atom(7)));
    assert Children(pair) == [up, Op1(0, Atom(7))] && Normalize(pair) == pair;
    var next := Cell(Op1(0, Atom(2)), pair);
    assert Children(next) == [Op1(0, Atom(2)), pair] && Normalize(next) == next;
    CallRewritten(next);
    var test := Op2(5, Op1(0, Atom(7)), up);
    assert Children(test) == [Op1(0, Atom(7)), up] && Normalize(test) == test;
    assert Children(Battery(false)) == [test, Op1(0, Atom(6)), Call(false, next)];
  }

  lemma DecrementRewritten()
    ensures AxesPositive(Decrement(false)) && Normalize(Decrement(false)) == Decrement(true)
  {
    BatteryRewritten();
    FetchFixed(1);
    CallRewritten(Op1(0, Atom(1)));
    var zero, quote := Op1(1, Atom(0)), Op1(1, Battery(false));
    assert Children(Atom(0)) == [] && Children(zero) == [Atom(0)];
    assert Children(quote) == [Battery(false)];
    var inner := Op2(8, quote, Call(false, Op1(0, Atom(1))));
    assert Children(inner) == [quote, Call(false, Op1(0, Atom(1)))];
    assert Children(Decrement(false)) == [zero, inner];
  }
}
