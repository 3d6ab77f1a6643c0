/** The Nock 9/10/11 rewriter of `nns-predicates.hoon`: axis translation, edit
    elimination, and the structure-preserving normalisation to opcodes 0-8. */
module Normalizer {
  import opened Prelude
  import opened Nock

  function Op1(op: nat, x: Noun): Noun {
    Cell(Atom(op), x)
  }

  function Op2(op: nat, b: Noun, c: Noun): Noun {
    Cell(Atom(op), Cell(b, c))
  }

  // ----- rewriting -----

  /** Axis `k` of `T`, as an axis of the subject `[T a]`. */
  function TaAxis(k: nat): (r: nat)
    requires k >= 1
    ensures r >= 2
  {
    if k == 1 then 2
    else if k % 2 == 0 then 2 * TaAxis(k / 2)
    else 2 * TaAxis(k / 2) + 1
  }

  /** A formula that, on `[T a]`, rebuilds `T` with `axis` replaced by the product of `current`. */
  function RebuildAtAxis(axis: nat, current: Noun): Noun
    requires axis >= 1
  {
    if axis == 1 then current
    else
      var isHead := axis % 2 == 0;
      var sibling := if isHead then axis + 1 else axis - 1;
      var fetch := Op1(0, Atom(TaAxis(sibling)));
      RebuildAtAxis(axis / 2, if isHead then Cell(current, fetch) else Cell(fetch, current))
  }

  /** The sub-nouns the rewriter recurses into; it returns any other shape unchanged. */
  function Children(f: Noun): (r: seq<Noun>)
    ensures forall c | c in r :: c < f
  {
    if f.Atom? then []
    else if f.head.Cell? then [f.head, f.tail]
    else
      var op, x := f.head.a, f.tail;
      if op == 1 || op == 3 || op == 4 then [x]
      else if x.Atom? then []
      else if op == 2 || op == 5 || op == 7 || op == 8 then [x.head, x.tail]
      else if op == 6 && x.tail.Cell? then [x.head, x.tail.head, x.tail.tail]
      else if op == 9 && x.head.Atom? then [x.tail]
      else if IsEdit(f) then [x.head.tail, x.tail]
      else if op == 11 then [x.tail]
      else []
  }

  /** `[10 [axis v] t]` with an atomic axis. */
  predicate IsEdit(f: Noun) {
    && f.Cell? && f.head == Atom(10)
    && f.tail.Cell? && f.tail.head.Cell? && f.tail.head.head.Atom?
  }

  /** `[11 [hint clue] next]`. */
  predicate IsDynamicHint(f: Noun) {
    f.Cell? && f.head == Atom(11) && f.tail.Cell? && f.tail.head.Cell?
  }

  /** The rewriter halts exactly when it meets no edit of axis 0 (see `RebuildNeedsPositiveAxis`). */
  predicate AxesPositive(f: Noun) {
    && (IsEdit(f) ==> f.tail.head.head.a >= 1)
    && forall c | c in Children(f) :: AxesPositive(c)
  }

  function Normalize(f: Noun): Noun
    requires AxesPositive(f)
    decreases f
  {
    if f.Atom? then f
    else if f.head.Cell? then Cell(Normalize(f.head), Normalize(f.tail))
    else
      var op, x := f.head.a, f.tail;
      if op == 1 || op == 3 || op == 4 then Op1(op, Normalize(x))
      else if x.Atom? then f
      else if op == 2 || op == 5 || op == 7 || op == 8 then Op2(op, Normalize(x.head), Normalize(x.tail))
      else if op == 6 && x.tail.Cell? then
        Cell(f.head, Cell(Normalize(x.head), Cell(Normalize(x.tail.head), Normalize(x.tail.tail))))
      else if op == 9 && x.head.Atom? then
        Op2(7, Normalize(x.tail), Op2(2, Op1(0, Atom(1)), Op1(0, x.head)))
      else if IsEdit(f) then
        var value := Op2(7, Op1(0, Atom(3)), Normalize(x.head.tail));
        Op2(8, Normalize(x.tail), RebuildAtAxis(x.head.head.a, value))
      else if op == 11 then
        Op2(7, Op1(0, Atom(1)), Normalize(x.tail))
      else f
  }

  /** The recursion of `rebuild-at-axis`, cut off after `steps` calls. */
  function RebuildWithin(steps: nat, axis: nat, current: Noun): Option<Noun> {
    if steps == 0 then None
    else if axis == 1 then Some(current)
    else if axis == 0 then
      // `div 0 2` is 0 again, and the sibling is axis 1
      RebuildWithin(steps - 1, 0, Cell(current, Op1(0, Atom(2))))
    else
      var isHead := axis % 2 == 0;
      var sibling := if isHead then axis + 1 else axis - 1;
      var fetch := Op1(0, Atom(TaAxis(sibling)));
      RebuildWithin(steps - 1, axis / 2, if isHead then Cell(current, fetch) else Cell(fetch, current))
  }

  /** `rebuild-at-axis` returns on every axis except 0, where it never does. */
  lemma {:induction false} RebuildNeedsPositiveAxis(axis: nat, current: Noun)
    ensures axis >= 1 ==> RebuildWithin(axis, axis, current) == Some(RebuildAtAxis(axis, current))
    ensures axis == 0 ==> forall steps: nat :: RebuildWithin(steps, axis, current) == None
  {
    if axis == 0 {
      forall steps: nat ensures RebuildWithin(steps, 0, current) == None {
        RebuildFromZero(steps, current);
      }
    } else {
      RebuildSteps(axis, axis, current);
    }
  }

  lemma {:induction false} RebuildFromZero(steps: nat, current: Noun)
    ensures RebuildWithin(steps, 0, current) == None
  {
    if steps > 0 { RebuildFromZero(steps - 1, Cell(current, Op1(0, Atom(2)))); }
  }

  lemma {:induction false} RebuildSteps(steps: nat, axis: nat, current: Noun)
    requires 1 <= axis <= steps
    ensures RebuildWithin(steps, axis, current) == Some(RebuildAtAxis(axis, current))
  {
    if axis > 1 {
      var isHead := axis % 2 == 0;
      var fetch := Op1(0, Atom(TaAxis(if isHead then axis + 1 else axis - 1)));
      RebuildSteps(steps - 1, axis / 2, if isHead then Cell(current, fetch) else Cell(fetch, current));
    }
  }

  // ----- what the rewriter leaves alone -----

  /** A shape the rewriter replaces: an arm call, an edit or a hint. */
  predicate Replaced(f: Noun) {
    f.Cell? && f.tail.Cell? &&
    ((f.head == Atom(9) && f.tail.head.Atom?) || IsEdit(f) || f.head == Atom(11))
  }

  /** No such shape where the rewriter looks. */
  predicate Untouched(f: Noun) {
    !Replaced(f) && forall c | c in Children(f) :: Untouched(c)
  }

  /** The fixed points of the rewriter are the nouns in which it finds nothing to replace. */
  lemma {:induction false} FixedIffUntouched(f: Noun)
    ensures AxesPositive(f) && Normalize(f) == f <==> Untouched(f)
  {
    forall c | c in Children(f)
      ensures AxesPositive(c) && Normalize(c) == c <==> Untouched(c)
    {
      FixedIffUntouched(c);
    }
    if AxesPositive(f) && Replaced(f) {
      assert Normalize(f).head != f.head;
    }
  }

  // ----- edit elimination -----

  /** Translated axes read the same fragment, and crash on the same axes. */
  lemma {:induction false} TaAxisReads(k: nat, t: Noun, a: Noun)
    requires k >= 1
    ensures Slot(TaAxis(k), Cell(t, a)) == Slot(k, t)
  {
    if k == 1 {
      assert Slot(1, Cell(t, a)) == Some(Cell(t, a));
    } else {
      TaAxisReads(k / 2, t, a);
      assert TaAxis(k) / 2 == TaAxis(k / 2) && TaAxis(k) % 2 == k % 2;
    }
  }

  function Depth(axis: nat): nat {
    if axis <= 1 then 0 else 1 + Depth(axis / 2)
  }

  /** Whatever `current` settles to on `[T a]`, the rebuilt formula settles to the
      Nock edit of `T` with that product, and crashes exactly when the edit or `current` does. */
  lemma {:induction false} RebuildSettles(fuel: nat, more: nat, axis: nat, current: Noun, t: Noun, a: Noun)
    requires axis >= 1 && fuel >= 1 && current.Cell?
    requires more >= fuel + Depth(axis)
    requires Eval(fuel, Cell(t, a), current) != OutOfFuel
    ensures Eval(more, Cell(t, a), RebuildAtAxis(axis, current)) ==
            var v :- Eval(fuel, Cell(t, a), current);
            OrCrash(Edit(axis, v, t))
    decreases axis
  {
    var s := Cell(t, a);
    if axis == 1 {
      FuelMonotone(fuel, more, s, current);
    } else {
      var isHead := axis % 2 == 0;
      var sibling := if isHead then axis + 1 else axis - 1;
      var fetch := Op1(0, Atom(TaAxis(sibling)));
      var next := if isHead then Cell(current, fetch) else Cell(fetch, current);
      TaAxisReads(sibling, t, a);
      assert Eval(fuel, s, fetch) == OrCrash(Slot(sibling, t));
      assert Eval(fuel + 1, s, next) ==
             var x :- Eval(fuel, s, next.head);
             var y :- Eval(fuel, s, next.tail);
             Product(Cell(x, y));
      RebuildSettles(fuel + 1, more, axis / 2, next, t, a);
    }
  }

  /** A rebuilt formula only has a product when `current` has one, and then it is the edit. */
  lemma RebuildInverts(fuel: nat, axis: nat, current: Noun, t: Noun, a: Noun) returns (less: nat)
    requires axis >= 1 && current.Cell?
    requires Eval(fuel, Cell(t, a), RebuildAtAxis(axis, current)).Product?
    ensures less <= fuel && Eval(less, Cell(t, a), current).Product?
    ensures Some(Eval(fuel, Cell(t, a), RebuildAtAxis(axis, current)).noun) ==
            Edit(axis, Eval(less, Cell(t, a), current).noun, t)
    decreases axis
  {
    var s := Cell(t, a);
    if axis == 1 {
      less := fuel;
    } else {
      var isHead := axis % 2 == 0;
      var sibling := if isHead then axis + 1 else axis - 1;
      var fetch := Op1(0, Atom(TaAxis(sibling)));
      var next := if isHead then Cell(current, fetch) else Cell(fetch, current);
      TaAxisReads(sibling, t, a);
      var outer := RebuildInverts(fuel, axis / 2, next, t, a);
      less := outer - 1;
      assert Eval(less, s, next.head).Product? && Eval(less, s, next.tail).Product?;
      assert Eval(less, s, fetch) == OrCrash(Slot(sibling, t));
    }
  }

  /** Edit elimination is exact: the rebuilt formula has the product of Nock's own
      edit, and crashes exactly when that edit crashes. */
  lemma {:induction false} EditEliminationExact(axis: nat, current: Noun, v: Noun, t: Noun, a: Noun)
    requires axis >= 1
    requires Yields(Cell(t, a), current, v)
    ensures forall r :: Yields(Cell(t, a), RebuildAtAxis(axis, current), r) <==> Edit(axis, v, t) == Some(r)
    ensures Crashes(Cell(t, a), RebuildAtAxis(axis, current)) <==> Edit(axis, v, t) == None
  {
    var s, f := Cell(t, a), RebuildAtAxis(axis, current);
    var fuel: nat :| Eval(fuel, s, current) == Product(v);
    var more := fuel + Depth(axis);
    RebuildSettles(fuel, more, axis, current, t, a);
    var out := Eval(more, s, f);
    assert out == OrCrash(Edit(axis, v, t));
    if out.Product? {
      OutcomeUnique(s, f, out.noun);
    } else {
      assert Crashes(s, f);
      forall r ensures !Yields(s, f, r) {
        if Yields(s, f, r) { OutcomeUnique(s, f, r); }
      }
    }
  }

  // ----- meaning preservation -----

  /** In every formula position: edit axes are positive, and quoted constants hold
      nothing the rewriter replaces. */
  predicate Rewritable(f: Noun) {
    && AxesPositive(f)
    && if f.Cell? && f.head == Atom(1) then Untouched(f.tail)
       else forall c | c in Children(f) :: Rewritable(c)
  }

  function Max(a: nat, b: nat): nat {
    if a < b then b else a
  }

  // ----- the clues of dynamic hints -----

  ghost predicate Finishes(s: Noun, f: Noun) {
    exists fuel: nat :: Eval(fuel, s, f).Product?
  }

  /** Running `f` on `s` runs its sub-formula `c` on `s'`. */
  ghost predicate Runs(s: Noun, f: Noun, s': Noun, c: Noun) {
    && f.Cell? && f.head != Atom(1) && c in Children(f)
    && if f.head in {Atom(6), Atom(7), Atom(8)} then
         var x := f.tail;
         || (c == x.head && s' == s)
         || (f.head == Atom(6) && c == x.tail.head && s' == s && Yields(s, x.head, Atom(0)))
         || (f.head == Atom(6) && c == x.tail.tail && s' == s && Yields(s, x.head, Atom(1)))
         || (f.head == Atom(7) && c == x.tail && Yields(s, x.head, s'))
         || (f.head == Atom(8) && c == x.tail && s'.Cell? && s'.tail == s && Yields(s, x.head, s'.head))
       else s' == s
  }

  /** Every clue that running `f` on `s` meets has a product. */
  ghost predicate CluesYield(s: Noun, f: Noun)
    decreases f
  {
    && (IsDynamicHint(f) ==> Finishes(s, f.tail.head.tail))
    && forall s', c | c in Children(f) && Runs(s, f, s', c) :: CluesYield(s', c)
  }

  lemma {:induction false} CluesBelow(s: Noun, f: Noun, s': Noun, c: Noun)
    requires CluesYield(s, f) && Runs(s, f, s', c)
    ensures CluesYield(s', c)
  {
  }

  /** A formula with a product has one for every sub-formula it runs. */
  lemma ProductBelow(fuel: nat, s: Noun, f: Noun, s': Noun, c: Noun)
    requires Eval(fuel, s, f).Product? && Runs(s, f, s', c)
    ensures Eval(fuel - 1, s', c).Product?
  {
    if f.head in {Atom(6), Atom(7), Atom(8)} {
      OutcomeUnique(s, f.tail.head, Eval(fuel - 1, s, f.tail.head).noun);
    }
  }

  /** And then every clue it met had a product. */
  lemma {:induction false} ProductMeetsClues(fuel: nat, s: Noun, f: Noun)
    requires Eval(fuel, s, f).Product?
    ensures CluesYield(s, f)
    decreases f
  {
    if IsDynamicHint(f) {
      assert Eval(fuel - 1, s, f.tail.head.tail).Product?;
    }
    forall s', c | c in Children(f) && Runs(s, f, s', c) ensures CluesYield(s', c) {
      ProductBelow(fuel, s, f, s', c);
      ProductMeetsClues(fuel - 1, s', c);
    }
  }

  /** A formula that has a product on every subject, by its shape. */
  predicate Total(f: Noun) {
    f.Cell? &&
    if f.head.Cell? then Total(f.head) && Total(f.tail)
    else
      var op, x := f.head.a, f.tail;
      if op == 0 then x == Atom(1)
      else if op == 1 then true
      else if op == 3 then Total(x)
      else if op in {5, 7, 8} then x.Cell? && Total(x.head) && Total(x.tail)
      else op == 11 && x.Cell? && Total(x.tail) && (x.head.Cell? ==> Total(x.head.tail))
  }

  lemma TotalFinishes(s: Noun, f: Noun) returns (fuel: nat)
    requires Total(f)
    ensures Eval(fuel, s, f).Product?
    decreases f
  {
    var x := f.tail;
    if f.head.Cell? {
      fuel := TotalFinishes(s, f.head);
      var j := TotalFinishes(s, x);
      fuel := BothFinish(fuel, s, f.head, j, s, x);
    } else if f.head.a == 0 || f.head.a == 1 {
      fuel := 0;
    } else if f.head.a == 3 {
      fuel := TotalFinishes(s, x);
    } else {
      fuel := TotalFinishes(s, x.tail);
      if f.head.a != 11 {
        fuel := TotalFinishes(s, x.head);
        var b := Eval(fuel, s, x.head).noun;
        var s' := if f.head.a == 7 then b else if f.head.a == 8 then Cell(b, s) else s;
        var j := TotalFinishes(s', x.tail);
        fuel := BothFinish(fuel, s, x.head, j, s', x.tail);
      } else if x.head.Cell? {
        var j := TotalFinishes(s, x.head.tail);
        fuel := BothFinish(fuel, s, x.tail, j, s, x.head.tail);
      }
    }
    fuel := fuel + 1;
  }

  lemma BothFinish(i: nat, s: Noun, f: Noun, j: nat, s': Noun, g: Noun) returns (fuel: nat)
    requires Eval(i, s, f).Product? && Eval(j, s', g).Product?
    ensures Eval(fuel, s, f) == Eval(i, s, f) && Eval(fuel, s', g) == Eval(j, s', g)
  {
    fuel := Max(i, j);
    FuelMonotone(i, fuel, s, f);
    FuelMonotone(j, fuel, s', g);
  }

  /** Every dynamic clue in a formula position is total, as a quoted one is. */
  predicate TotalClues(f: Noun) {
    && (IsDynamicHint(f) ==> Total(f.tail.head.tail))
    && (!(f.Cell? && f.head == Atom(1)) ==> forall c | c in Children(f) :: TotalClues(c))
  }

  lemma {:induction false} TotalCluesYield(s: Noun, f: Noun)
    requires TotalClues(f)
    ensures CluesYield(s, f)
    decreases f
  {
    if IsDynamicHint(f) {
      var fuel := TotalFinishes(s, f.tail.head.tail);
    }
    forall s', c | c in Children(f) && Runs(s, f, s', c) ensures CluesYield(s', c) {
      TotalCluesYield(s', c);
    }
  }

  // ----- both directions -----

  ghost predicate Kept(fuel: nat, s: Noun, f: Noun) {
    Eval(fuel, s, f).Product? || (Eval(fuel, s, f).Crash? && CluesYield(s, f))
  }

  lemma {:induction false} KeptBelow(fuel: nat, s: Noun, f: Noun, s': Noun, c: Noun)
    requires Kept(fuel, s, f) && Runs(s, f, s', c) && Eval(fuel - 1, s', c) != OutOfFuel
    ensures Kept(fuel - 1, s', c)
  {
    if Eval(fuel, s, f).Product? {
      ProductBelow(fuel, s, f, s', c);
    } else {
      CluesBelow(s, f, s', c);
    }
  }

  /** Every product is kept, and every crash too if the clues met have products. */
  lemma Forward(fuel: nat, s: Noun, f: Noun) returns (enough: nat)
    requires Rewritable(f) && Kept(fuel, s, f)
    ensures Ends(enough, s, Normalize(f), Eval(fuel, s, f))
    decreases fuel, 1
  {
    if f.Cell? && f.head == Atom(1) { FixedIffUntouched(f.tail); }
    if f.Atom? || Normalize(f) == f {
      enough := fuel;
      Settled(fuel, s, f);
    } else if f.head.Cell? {
      KeptBelow(fuel, s, f, s, f.head);
      enough := Forward(fuel - 1, s, f.head);
      if Eval(fuel - 1, s, f.head).Product? {
        KeptBelow(fuel, s, f, s, f.tail);
        var e := Forward(fuel - 1, s, f.tail);
        enough := Max(enough, e);
      }
      enough := enough + 1;
    } else if f.head.a == 2 || f.head.a == 5 {
      enough := ForwardPair(fuel, s, f);
    } else if f.head.a == 9 {
      enough := ForwardCall(fuel, s, f);
    } else if f.head.a == 10 {
      enough := ForwardEdit(fuel, s, f);
    } else if f.head.a == 6 {
      enough := ForwardIf(fuel, s, f);
    } else if f.head.a == 7 || f.head.a == 8 {
      enough := ForwardPush(fuel, s, f);
    } else {
      enough := ForwardUnary(fuel, s, f);
    }
  }

  /** A clue that has a product is not what stops its formula. */
  lemma ClueRuns(fuel: nat, s: Noun, f: Noun)
    requires IsDynamicHint(f) && Kept(fuel, s, f)
    ensures Eval(fuel - 1, s, f.tail.head.tail).Product?
    ensures Eval(fuel - 1, s, f.tail.tail) == Eval(fuel, s, f)
  {
    var clue := f.tail.head.tail;
    if Eval(fuel, s, f).Crash? {
      var e: nat :| Eval(e, s, clue).Product?;
      OutcomeUnique(s, clue, Eval(e, s, clue).noun);
    }
  }

  /** Opcodes 3, 4 and 11. */
  lemma ForwardUnary(fuel: nat, s: Noun, f: Noun) returns (enough: nat)
    requires Rewritable(f) && Kept(fuel, s, f)
    requires f.Cell? && f.head in {Atom(3), Atom(4), Atom(11)} && (f.head == Atom(11) ==> f.tail.Cell?)
    ensures Ends(enough, s, Normalize(f), Eval(fuel, s, f))
    decreases fuel, 0
  {
    var next := if f.head == Atom(11) then f.tail.tail else f.tail;
    if IsDynamicHint(f) { ClueRuns(fuel, s, f); }
    KeptBelow(fuel, s, f, s, next);
    enough := Forward(fuel - 1, s, next);
    enough := enough + 2;
  }

  lemma ForwardIf(fuel: nat, s: Noun, f: Noun) returns (enough: nat)
    requires Rewritable(f) && Kept(fuel, s, f)
    requires f.Cell? && f.head == Atom(6) && f.tail.Cell? && f.tail.tail.Cell?
    ensures Ends(enough, s, Normalize(f), Eval(fuel, s, f))
    decreases fuel, 0
  {
    var l: nat, x := fuel - 1, f.tail;
    KeptBelow(fuel, s, f, s, x.head);
    enough := Forward(l, s, x.head);
    var b := Eval(l, s, x.head);
    if b == Product(Atom(0)) {
      KeptBelow(fuel, s, f, s, x.tail.head);
      var e := Forward(l, s, x.tail.head);
      enough := Max(enough, e);
    } else if b == Product(Atom(1)) {
      KeptBelow(fuel, s, f, s, x.tail.tail);
      var e := Forward(l, s, x.tail.tail);
      enough := Max(enough, e);
    }
    enough := enough + 1;
  }

  /** Opcodes 7 and 8. */
  lemma ForwardPush(fuel: nat, s: Noun, f: Noun) returns (enough: nat)
    requires Rewritable(f) && Kept(fuel, s, f)
    requires f.Cell? && f.head in {Atom(7), Atom(8)} && f.tail.Cell?
    ensures Ends(enough, s, Normalize(f), Eval(fuel, s, f))
    decreases fuel, 0
  {
    var l: nat, x := fuel - 1, f.tail;
    KeptBelow(fuel, s, f, s, x.head);
    enough := Forward(l, s, x.head);
    var b := Eval(l, s, x.head);
    if b.Product? {
      var s' := if f.head == Atom(7) then b.noun else Cell(b.noun, s);
      assert Yields(s, x.head, b.noun);
      KeptBelow(fuel, s, f, s', x.tail);
      var e := Forward(l, s', x.tail);
      enough := Max(enough, e);
    }
    enough := enough + 1;
  }

  lemma ForwardPair(fuel: nat, s: Noun, f: Noun) returns (enough: nat)
    requires Rewritable(f) && Kept(fuel, s, f)
    requires f.Cell? && f.head in {Atom(2), Atom(5)} && f.tail.Cell?
    ensures Ends(enough, s, Normalize(f), Eval(fuel, s, f))
    decreases fuel, 0
  {
    var l: nat, b, c := fuel - 1, f.tail.head, f.tail.tail;
    KeptBelow(fuel, s, f, s, b);
    enough := Forward(l, s, b);
    if Eval(l, s, b).Product? {
      KeptBelow(fuel, s, f, s, c);
      var e := Forward(l, s, c);
      if f.head == Atom(2) && Eval(l, s, c).Product? {
        Settled(l, Eval(l, s, b).noun, Eval(l, s, c).noun);
        e := Max(e, l);
      }
      enough := Max(enough, e);
    }
    enough := enough + 1;
  }

  /** The 0-8 form of an arm call, `[2 [0 1] [0 axis]]`, runs the arm against its core. */
  lemma {:induction false} CallRuns(fuel: nat, core: Noun, axis: nat)
    requires fuel >= 2
    ensures Eval(fuel, core, Op2(2, Op1(0, Atom(1)), Op1(0, Atom(axis)))) ==
            var arm :- OrCrash(Slot(axis, core));
            Eval(fuel - 1, core, arm)
  {
    var self, fetch := Op1(0, Atom(1)), Op1(0, Atom(axis));
    assert Eval(fuel - 1, core, self) == Product(core);
    assert Eval(fuel - 1, core, fetch) == OrCrash(Slot(axis, core));
  }

  lemma ForwardCall(fuel: nat, s: Noun, f: Noun) returns (enough: nat)
    requires Rewritable(f) && Kept(fuel, s, f)
    requires f.Cell? && f.head == Atom(9) && f.tail.Cell? && f.tail.head.Atom?
    ensures Ends(enough, s, Normalize(f), Eval(fuel, s, f))
    decreases fuel, 0
  {
    var l: nat, x := fuel - 1, f.tail;
    KeptBelow(fuel, s, f, s, x.tail);
    enough := Forward(l, s, x.tail);
    var core := Eval(l, s, x.tail);
    if core.Product? {
      var arm := Slot(x.head.a, core.noun);
      if arm.Some? {
        Settled(l, core.noun, arm.value);
      }
    }
    enough := Max(enough, l) + 3;
    forall more: nat | more >= enough && core.Product?
      ensures Eval(more, s, Normalize(f)) == Eval(fuel, s, f)
    {
      CallRuns(more - 1, core.noun, x.head.a);
    }
  }

  /** `[7 [0 3] v]` on `[t s]` is `v` on `s`. */
  lemma PinnedRuns(fuel: nat, pinned: Noun, v: Noun, s: Noun)
    requires fuel >= 1 && pinned.Cell? && pinned.tail == s
    ensures Eval(fuel + 1, pinned, Op2(7, Op1(0, Atom(3)), v)) == Eval(fuel, s, v)
  {
    var three := Op1(0, Atom(3));
    assert Slot(1, pinned) == Some(pinned);
    assert Slot(3, pinned) == Some(s);
    assert Eval(fuel, pinned, three) == Product(s);
  }

  lemma ForwardEdit(fuel: nat, s: Noun, f: Noun) returns (enough: nat)
    requires Rewritable(f) && Kept(fuel, s, f) && IsEdit(f)
    ensures Ends(enough, s, Normalize(f), Eval(fuel, s, f))
    decreases fuel, 0
  {
    var l: nat, axis, v, t := fuel - 1, f.tail.head.head.a, f.tail.head.tail, f.tail.tail;
    KeptBelow(fuel, s, f, s, t);
    enough := Forward(l, s, t);
    var tree := Eval(l, s, t);
    if tree.Product? {
      KeptBelow(fuel, s, f, s, v);
      var e := Forward(l, s, v);
      var current := Op2(7, Op1(0, Atom(3)), Normalize(v));
      var pinned := Cell(tree.noun, s);
      forall more: nat | more >= e + 2 + Depth(axis)
        ensures Eval(more, pinned, RebuildAtAxis(axis, current)) == Eval(fuel, s, f)
      {
        PinnedRuns(e + 1, pinned, Normalize(v), s);
        RebuildSettles(e + 2, more, axis, current, tree.noun, s);
      }
      enough := Max(enough, e + 2 + Depth(axis));
    }
    enough := enough + 1;
  }

  /** If the clues met have products, the rewriting has no product the original lacks. */
  lemma Backward(fuel: nat, s: Noun, f: Noun) returns (enough: nat)
    requires Rewritable(f) && CluesYield(s, f)
    requires Eval(fuel, s, Normalize(f)).Product?
    ensures Ends(enough, s, f, Eval(fuel, s, Normalize(f)))
    decreases fuel, 1
  {
    if f.Cell? && f.head == Atom(1) { FixedIffUntouched(f.tail); }
    if f.Atom? || Normalize(f) == f {
      enough := fuel;
      Settled(fuel, s, f);
    } else if f.head.Cell? {
      CluesBelow(s, f, s, f.head);
      CluesBelow(s, f, s, f.tail);
      enough := Backward(fuel - 1, s, f.head);
      var e := Backward(fuel - 1, s, f.tail);
      enough := Max(enough, e) + 1;
    } else if f.head.a == 2 || f.head.a == 5 {
      enough := BackwardPair(fuel, s, f);
    } else if f.head.a == 9 {
      enough := BackwardCall(fuel, s, f);
    } else if f.head.a == 10 {
      enough := BackwardEdit(fuel, s, f);
    } else if f.head.a == 6 {
      enough := BackwardIf(fuel, s, f);
    } else if f.head.a == 7 || f.head.a == 8 {
      enough := BackwardPush(fuel, s, f);
    } else {
      enough := BackwardUnary(fuel, s, f);
    }
  }

  lemma BackwardUnary(fuel: nat, s: Noun, f: Noun) returns (enough: nat)
    requires Rewritable(f) && CluesYield(s, f)
    requires f.Cell? && f.head in {Atom(3), Atom(4), Atom(11)} && (f.head == Atom(11) ==> f.tail.Cell?)
    requires Eval(fuel, s, Normalize(f)).Product?
    ensures Ends(enough, s, f, Eval(fuel, s, Normalize(f)))
    decreases fuel, 0
  {
    var l: nat := fuel - 1;
    assert Eval(l, s, Op1(0, Atom(1))) == if l == 0 then OutOfFuel else Product(s);
    var next := if f.head == Atom(11) then f.tail.tail else f.tail;
    CluesBelow(s, f, s, next);
    enough := Backward(l, s, next);
    if IsDynamicHint(f) {
      var e: nat :| Eval(e, s, f.tail.head.tail).Product?;
      Settled(e, s, f.tail.head.tail);
      enough := Max(enough, e);
    }
    enough := enough + 1;
  }

  lemma BackwardIf(fuel: nat, s: Noun, f: Noun) returns (enough: nat)
    requires Rewritable(f) && CluesYield(s, f)
    requires f.Cell? && f.head == Atom(6) && f.tail.Cell? && f.tail.tail.Cell?
    requires Eval(fuel, s, Normalize(f)).Product?
    ensures Ends(enough, s, f, Eval(fuel, s, Normalize(f)))
    decreases fuel, 0
  {
    var l: nat, x := fuel - 1, f.tail;
    CluesBelow(s, f, s, x.head);
    enough := Backward(l, s, x.head);
    var b := Eval(l, s, Normalize(x.head)).noun;
    assert Eval(enough, s, x.head) == Product(b);
    var arm := if b == Atom(0) then x.tail.head else x.tail.tail;
    CluesBelow(s, f, s, arm);
    var e := Backward(l, s, arm);
    enough := Max(enough, e) + 1;
  }

  lemma BackwardPush(fuel: nat, s: Noun, f: Noun) returns (enough: nat)
    requires Rewritable(f) && CluesYield(s, f)
    requires f.Cell? && f.head in {Atom(7), Atom(8)} && f.tail.Cell?
    requires Eval(fuel, s, Normalize(f)).Product?
    ensures Ends(enough, s, f, Eval(fuel, s, Normalize(f)))
    decreases fuel, 0
  {
    var l: nat, x := fuel - 1, f.tail;
    CluesBelow(s, f, s, x.head);
    enough := Backward(l, s, x.head);
    var b := Eval(l, s, Normalize(x.head)).noun;
    assert Eval(enough, s, x.head) == Product(b);
    var s' := if f.head == Atom(7) then b else Cell(b, s);
    CluesBelow(s, f, s', x.tail);
    var e := Backward(l, s', x.tail);
    enough := Max(enough, e) + 1;
  }

  lemma BackwardPair(fuel: nat, s: Noun, f: Noun) returns (enough: nat)
    requires Rewritable(f) && CluesYield(s, f)
    requires f.Cell? && f.head in {Atom(2), Atom(5)} && f.tail.Cell?
    requires Eval(fuel, s, Normalize(f)).Product?
    ensures Ends(enough, s, f, Eval(fuel, s, Normalize(f)))
    decreases fuel, 0
  {
    var l: nat, b, c := fuel - 1, f.tail.head, f.tail.tail;
    CluesBelow(s, f, s, b);
    CluesBelow(s, f, s, c);
    enough := Backward(l, s, b);
    var e := Backward(l, s, c);
    if f.head == Atom(2) {
      Settled(l, Eval(l, s, Normalize(b)).noun, Eval(l, s, Normalize(c)).noun);
      e := Max(e, l);
    }
    enough := Max(enough, e) + 1;
  }

  lemma BackwardCall(fuel: nat, s: Noun, f: Noun) returns (enough: nat)
    requires Rewritable(f) && CluesYield(s, f)
    requires f.Cell? && f.head == Atom(9) && f.tail.Cell? && f.tail.head.Atom?
    requires Eval(fuel, s, Normalize(f)).Product?
    ensures Ends(enough, s, f, Eval(fuel, s, Normalize(f)))
    decreases fuel, 0
  {
    var l: nat, x, call := fuel - 1, f.tail, Normalize(f).tail.tail;
    CluesBelow(s, f, s, x.tail);
    enough := Backward(l, s, x.tail);
    var core := Eval(l, s, Normalize(x.tail)).noun;
    assert Eval(0, core, call.tail.head) == OutOfFuel;
    assert l >= 2;
    CallRuns(l, core, x.head.a);
    Settled(l - 1, core, Slot(x.head.a, core).value);
    enough := Max(enough, l) + 1;
  }

  lemma BackwardEdit(fuel: nat, s: Noun, f: Noun) returns (enough: nat)
    requires Rewritable(f) && CluesYield(s, f) && IsEdit(f)
    requires Eval(fuel, s, Normalize(f)).Product?
    ensures Ends(enough, s, f, Eval(fuel, s, Normalize(f)))
    decreases fuel, 0
  {
    var l: nat, axis, v, t := fuel - 1, f.tail.head.head.a, f.tail.head.tail, f.tail.tail;
    CluesBelow(s, f, s, t);
    CluesBelow(s, f, s, v);
    enough := Backward(l, s, t);
    var tree := Eval(l, s, Normalize(t)).noun;
    var less := EditInverts(l, axis, v, tree, s);
    var e := Backward(less, s, v);
    enough := Max(enough, e) + 1;
  }

  /** The product of the rewritten edit, on the tree and subject it is run on. */
  lemma EditInverts(l: nat, axis: nat, v: Noun, tree: Noun, s: Noun) returns (less: nat)
    requires axis >= 1 && AxesPositive(v)
    requires Eval(l, Cell(tree, s), RebuildAtAxis(axis, Op2(7, Op1(0, Atom(3)), Normalize(v)))).Product?
    ensures less < l && Eval(less, s, Normalize(v)).Product?
    ensures Some(Eval(l, Cell(tree, s), RebuildAtAxis(axis, Op2(7, Op1(0, Atom(3)), Normalize(v)))).noun) ==
            Edit(axis, Eval(less, s, Normalize(v)).noun, tree)
  {
    var current, pinned := Op2(7, Op1(0, Atom(3)), Normalize(v)), Cell(tree, s);
    var outer := RebuildInverts(l, axis, current, tree, s);
    less := outer - 1;
    PinnedRuns(less, pinned, Normalize(v), s);
  }

  /** Rewriting preserves meaning: every product of a formula is a product of its rewriting. */
  lemma {:induction false} NormalizePreservesProducts(s: Noun, f: Noun, p: Noun)
    requires Rewritable(f)
    requires Yields(s, f, p)
    ensures Yields(s, Normalize(f), p)
  {
    var fuel: nat :| Eval(fuel, s, f) == Product(p);
    var enough := Forward(fuel, s, f);
    assert Eval(enough, s, Normalize(f)) == Product(p);
  }

  /** The rewriting is exact up to the clues it drops: it has the products of the original,
      and its crashes, wherever the clues that the original meets have products; and the
      original has no product anywhere else. */
  lemma {:induction false} NormalizeExact(s: Noun, f: Noun)
    requires Rewritable(f)
    ensures forall p :: Yields(s, f, p) <==> Yields(s, Normalize(f), p) && CluesYield(s, f)
    ensures Crashes(s, f) && CluesYield(s, f) ==> Crashes(s, Normalize(f))
  {
    forall p ensures Yields(s, f, p) <==> Yields(s, Normalize(f), p) && CluesYield(s, f) {
      if Yields(s, f, p) {
        NormalizePreservesProducts(s, f, p);
        var fuel: nat :| Eval(fuel, s, f) == Product(p);
        ProductMeetsClues(fuel, s, f);
      }
      if Yields(s, Normalize(f), p) && CluesYield(s, f) {
        var fuel: nat :| Eval(fuel, s, Normalize(f)) == Product(p);
        var enough := Backward(fuel, s, f);
        assert Eval(enough, s, f) == Product(p);
      }
    }
    if Crashes(s, f) && CluesYield(s, f) {
      var fuel: nat :| Eval(fuel, s, f) == Crash;
      var enough := Forward(fuel, s, f);
      assert Eval(enough, s, Normalize(f)) == Crash;
    }
  }

  /** So it is exact on every subject for a formula whose dynamic clues are all total, such
      as the quoted clues of compiled arm calls. */
  lemma {:induction false} TotalCluesExact(s: Noun, f: Noun)
    requires Rewritable(f) && TotalClues(f)
    ensures forall p :: Yields(s, f, p) <==> Yields(s, Normalize(f), p)
    ensures Crashes(s, f) ==> Crashes(s, Normalize(f))
  {
    TotalCluesYield(s, f);
    NormalizeExact(s, f);
  }

  /** One dynamic hint keeps its products on exactly the subjects on which its clue has one. */
  lemma {:induction false} DynamicHintExact(s: Noun, h: Noun, clue: Noun, next: Noun)
    requires Rewritable(next) && TotalClues(next)
    ensures var f := Cell(Atom(11), Cell(Cell(h, clue), next));
            && Rewritable(f)
            && (forall p :: Yields(s, f, p) <==> Yields(s, Normalize(f), p) && Finishes(s, clue))
  {
    var f := Cell(Atom(11), Cell(Cell(h, clue), next));
    assert Children(f) == [next];
    NormalizeExact(s, f);
    TotalCluesYield(s, next);
    assert CluesYield(s, f) <==> Finishes(s, clue);
  }

  /** The clue of `[11 [0 [0 0]] 0 1]` crashes on every subject: so does the hint, but its
      rewriting yields the subject. */
  lemma DynamicClueIsDropped(s: Noun)
    ensures var f := Cell(Atom(11), Cell(Cell(Atom(0), Op1(0, Atom(0))), Op1(0, Atom(1))));
            Rewritable(f) && Crashes(s, f) && Yields(s, Normalize(f), s)
  {
    var clue, next := Op1(0, Atom(0)), Op1(0, Atom(1));
    var f := Cell(Atom(11), Cell(Cell(Atom(0), clue), next));
    assert Children(next) == [] && Rewritable(next);
    assert Children(f) == [next];
    assert Eval(1, s, clue) == Crash;
    assert Eval(2, s, f) == Crash;
    var f' := Normalize(f);
    assert f' == Op2(7, next, next);
    assert Eval(1, s, next) == Product(s);
    assert Eval(2, s, f') == Product(s);
  }

  /** A quoted constant keeps its value exactly when it holds nothing the rewriter replaces. */
  lemma {:induction false} QuoteKeptIff(s: Noun, c: Noun)
    requires AxesPositive(c)
    ensures AxesPositive(Op1(1, c)) && Yields(s, Op1(1, c), c)
    ensures Yields(s, Normalize(Op1(1, c)), c) <==> Untouched(c)
  {
    var f := Op1(1, c);
    assert Children(f) == [c];
    assert Eval(1, s, f) == Product(c);
    assert Eval(1, s, Normalize(f)) == Product(Normalize(c));
    OutcomeUnique(s, Normalize(f), Normalize(c));
    FixedIffUntouched(c);
  }

  /** The constant `[9 2 0 1]`, quoted, comes out as another noun. */
  lemma QuotedCallIsChanged(s: Noun)
    ensures var c := Op2(9, Atom(2), Op1(0, Atom(1)));
            && AxesPositive(Op1(1, c)) && !Yields(s, Normalize(Op1(1, c)), c)
            && Yields(s, Normalize(Op1(1, c)),
                      Op2(7, Op1(0, Atom(1)), Op2(2, Op1(0, Atom(1)), Op1(0, Atom(2)))))
  {
    var core := Op1(0, Atom(1));
    var c := Op2(9, Atom(2), core);
    assert Children(core) == [] && Children(c) == [core];
    QuoteKeptIff(s, c);
    assert Replaced(c);
    assert Eval(1, s, Normalize(Op1(1, c))) == Product(Normalize(c));
  }

  // ----- idempotence and arm positions -----

  lemma {:induction false} RebuildNormalizes(axis: nat, current: Noun)
    requires axis >= 1 && current.Cell? && AxesPositive(current)
    ensures var r := RebuildAtAxis(axis, current);
            AxesPositive(r) && Normalize(r) == RebuildAtAxis(axis, Normalize(current))
    decreases axis
  {
    if axis > 1 {
      var isHead := axis % 2 == 0;
      var fetch := Op1(0, Atom(TaAxis(if isHead then axis + 1 else axis - 1)));
      var next := if isHead then Cell(current, fetch) else Cell(fetch, current);
      assert AxesPositive(fetch) && Normalize(fetch) == fetch;
      assert AxesPositive(next);
      RebuildNormalizes(axis / 2, next);
    }
  }

  /** Rewriting a second time changes nothing, on every noun. */
  lemma {:induction false} NormalizeIdempotent(f: Noun)
    requires AxesPositive(f)
    ensures AxesPositive(Normalize(f)) && Normalize(Normalize(f)) == Normalize(f)
    decreases f, 1
  {
    if IsEdit(f) {
      NormalizeIdempotent(f.tail.head.tail);
      NormalizeIdempotent(f.tail.tail);
      IdempotentPush(3, Normalize(f.tail.head.tail));
      RebuildNormalizes(f.tail.head.head.a, Op2(7, Op1(0, Atom(3)), Normalize(f.tail.head.tail)));
    } else if !Replaced(f) {
      IdempotentHere(f);
    } else if f.head == Atom(9) {
      NormalizeIdempotent(f.tail.tail);
      IdempotentCall(f.tail.head, Normalize(f.tail.tail));
    } else {
      NormalizeIdempotent(f.tail.tail);
      IdempotentPush(1, Normalize(f.tail.tail));
    }
  }

  /** The shapes the rewriter keeps: autocons and opcodes 0 to 8. */
  lemma {:induction false} IdempotentHere(f: Noun)
    requires AxesPositive(f) && !Replaced(f)
    ensures AxesPositive(Normalize(f)) && Normalize(Normalize(f)) == Normalize(f)
    decreases f, 0
  {
    forall c | c in Children(f)
      ensures AxesPositive(Normalize(c)) && Normalize(Normalize(c)) == Normalize(c)
    {
      NormalizeIdempotent(c);
    }
    KeptShape(f);
    var f' := Normalize(f);
    assert !IsEdit(f') && forall c | c in Children(f') :: AxesPositive(c) && Normalize(c) == c;
  }

  /** Outside the replaced shapes the rewriter acts child by child. */
  lemma {:induction false} KeptShape(f: Noun)
    requires AxesPositive(f) && !Replaced(f)
    ensures !Replaced(Normalize(f)) && |Children(Normalize(f))| == |Children(f)|
    ensures forall i :: 0 <= i < |Children(f)| ==> Children(Normalize(f))[i] == Normalize(Children(f)[i])
  {
  }

  lemma {:induction false} IdempotentPush(axis: nat, g: Noun)
    requires AxesPositive(g) && Normalize(g) == g
    ensures var r := Op2(7, Op1(0, Atom(axis)), g); AxesPositive(r) && Normalize(r) == r
  {
    var fetch := Op1(0, Atom(axis));
    assert Children(fetch) == [] && AxesPositive(fetch);
    assert Children(Op2(7, fetch, g)) == [fetch, g];
  }

  lemma {:induction false} IdempotentCall(axis: Noun, core: Noun)
    requires axis.Atom? && AxesPositive(core) && Normalize(core) == core
    ensures var r := Op2(7, core, Op2(2, Op1(0, Atom(1)), Op1(0, axis))); AxesPositive(r) && Normalize(r) == r
  {
    var self, fetch := Op1(0, Atom(1)), Op1(0, axis);
    assert Children(self) == [] && Children(fetch) == [];
    assert AxesPositive(self) && AxesPositive(fetch);
    var call := Op2(2, self, fetch);
    assert Children(call) == [self, fetch];
    assert AxesPositive(call) && Normalize(call) == call;
    assert Children(Op2(7, core, call)) == [core, call];
  }

  /** Every cell strictly above `axis` has a cell for its head, as in a battery of arms. */
  predicate BatteryPath(axis: nat, n: Noun) {
    && axis >= 1
    && (axis > 1 ==>
          && BatteryPath(axis / 2, n)
          && var parent := Slot(axis / 2, n);
             parent.Some? && parent.value.Cell? && parent.value.head.Cell?)
  }

  /** Along a battery path, the rewritten noun holds the rewriting of each fragment
      at the axis where the original held the fragment. */
  lemma {:induction false} NormalizeKeepsArms(axis: nat, n: Noun)
    requires AxesPositive(n) && BatteryPath(axis, n)
    ensures Slot(axis, n).Some? && AxesPositive(Slot(axis, n).value)
    ensures Slot(axis, Normalize(n)) == Some(Normalize(Slot(axis, n).value))
  {
    if axis > 1 {
      NormalizeKeepsArms(axis / 2, n);
      var parent := Slot(axis / 2, n).value;
      assert parent.head in Children(parent) && parent.tail in Children(parent);
    }
  }

  /** A hint and its replacement both hold the hinted formula at axis 7. */
  lemma {:induction false} HintKeepsNext(hint: Noun, next: Noun)
    requires AxesPositive(next)
    ensures var f := Cell(Atom(11), Cell(hint, next));
            AxesPositive(f) && Slot(7, f) == Some(next) && Slot(7, Normalize(f)) == Some(Normalize(next))
  {
    var f := Cell(Atom(11), Cell(hint, next));
    assert Children(f) == [next];
    assert Slot(3, f) == Some(f.tail);
    var f' := Normalize(f);
    assert Slot(3, f') == Some(f'.tail);
  }
}
