/** Nouns, axis addressing, and a fuel-indexed Nock 4K evaluator. */
module Nock {
  import opened Prelude

  datatype Noun = Atom(a: nat) | Cell(head: Noun, tail: Noun)

  /** `/[axis n]`: the fragment of a noun at an axis; `None` is a crash. */
  function Slot(axis: nat, n: Noun): Option<Noun> {
    if axis == 0 then None
    else if axis == 1 then Some(n)
    else
      var parent :- Slot(axis / 2, n);
      if parent.Atom? then None
      else if axis % 2 == 0 then Some(parent.head)
      else Some(parent.tail)
  }

  /** `#[axis v t]`: `t` with the fragment at `axis` replaced by `v`; `None` is a crash. */
  function Edit(axis: nat, v: Noun, t: Noun): Option<Noun> {
    if axis == 0 then None
    else if axis == 1 then Some(v)
    else if axis % 2 == 0 then
      var sibling :- Slot(axis + 1, t);
      Edit(axis / 2, Cell(v, sibling), t)
    else
      var sibling :- Slot(axis - 1, t);
      Edit(axis / 2, Cell(sibling, v), t)
  }

  /** What a bounded evaluation ends in.  Nock 4K itself only has products; a
      crash and an endless reduction are the two ways not to have one. */
  datatype Outcome = Product(noun: Noun) | Crash | OutOfFuel {
    predicate IsFailure() {
      !Product?
    }

    function PropagateFailure(): Outcome
      requires !Product?
    {
      this
    }

    function Extract(): Noun
      requires Product?
    {
      noun
    }
  }

  function OrCrash(o: Option<Noun>): Outcome {
    if o.Some? then Product(o.value) else Crash
  }

  /** `*[s f]`.  Every nested reduction spends one unit of fuel.  Nock 4K leaves
      the order of independent reductions open; opcode 10 computes the tree first. */
  function Eval(fuel: nat, s: Noun, f: Noun): Outcome
    decreases fuel
  {
    if fuel == 0 then OutOfFuel
    else if f.Atom? then Crash
    else if f.head.Cell? then
      var x :- Eval(fuel - 1, s, f.head);
      var y :- Eval(fuel - 1, s, f.tail);
      Product(Cell(x, y))
    else
      var l, op, x := fuel - 1, f.head.a, f.tail;
      if op == 0 then
        if x.Atom? then OrCrash(Slot(x.a, s)) else Crash
      else if op == 1 then
        Product(x)
      else if op == 3 then
        var b :- Eval(l, s, x);
        Product(Atom(if b.Cell? then 0 else 1))
      else if op == 4 then
        var b :- Eval(l, s, x);
        if b.Atom? then Product(Atom(b.a + 1)) else Crash
      else if x.Atom? then
        Crash
      else if op == 2 then
        var b :- Eval(l, s, x.head);
        var c :- Eval(l, s, x.tail);
        Eval(l, b, c)
      else if op == 5 then
        var b :- Eval(l, s, x.head);
        var c :- Eval(l, s, x.tail);
        Product(Atom(if b == c then 0 else 1))
      else if op == 6 then
        if x.tail.Atom? then Crash
        else
          var b :- Eval(l, s, x.head);
          if b == Atom(0) then Eval(l, s, x.tail.head)
          else if b == Atom(1) then Eval(l, s, x.tail.tail)
          else Crash
      else if op == 7 then
        var b :- Eval(l, s, x.head);
        Eval(l, b, x.tail)
      else if op == 8 then
        var b :- Eval(l, s, x.head);
        Eval(l, Cell(b, s), x.tail)
      else if op == 9 then
        if x.head.Cell? then Crash
        else
          var core :- Eval(l, s, x.tail);
          var arm :- OrCrash(Slot(x.head.a, core));
          Eval(l, core, arm)
      else if op == 10 then
        if x.head.Atom? || x.head.head.Cell? then Crash
        else
          var tree :- Eval(l, s, x.tail);
          var v :- Eval(l, s, x.head.tail);
          OrCrash(Edit(x.head.head.a, v, tree))
      else if op == 11 then
        if x.head.Atom? then Eval(l, s, x.tail)
        else
          var clue :- Eval(l, s, x.head.tail);
          Eval(l, s, x.tail)
      else
        Crash
  }

  /** `f` run on `s` has product `p`. */
  ghost predicate Yields(s: Noun, f: Noun, p: Noun) {
    exists fuel: nat :: Eval(fuel, s, f) == Product(p)
  }

  ghost predicate Crashes(s: Noun, f: Noun) {
    exists fuel: nat :: Eval(fuel, s, f) == Crash
  }

  /** More fuel never changes a settled outcome. */
  lemma {:induction false} FuelMonotone(fuel: nat, more: nat, s: Noun, f: Noun)
    requires fuel <= more
    ensures Eval(fuel, s, f) != OutOfFuel ==> Eval(more, s, f) == Eval(fuel, s, f)
    decreases fuel
  {
    if fuel > 0 && f.Cell? {
      var l, m: nat, x := fuel - 1, more - 1, f.tail;
      if f.head.Cell? {
        FuelMonotone(l, m, s, f.head);
        FuelMonotone(l, m, s, x);
      } else if f.head.a == 3 || f.head.a == 4 {
        FuelMonotone(l, m, s, x);
      } else if x.Cell? {
        FuelMonotone(l, m, s, x.head);
        FuelMonotone(l, m, s, x.tail);
        var b, c := Eval(l, s, x.head), Eval(l, s, x.tail);
        if f.head.a == 2 && b.Product? && c.Product? {
          FuelMonotone(l, m, b.noun, c.noun);
        } else if f.head.a == 6 && x.tail.Cell? {
          FuelMonotone(l, m, s, x.tail.head);
          FuelMonotone(l, m, s, x.tail.tail);
        } else if f.head.a == 7 && b.Product? {
          FuelMonotone(l, m, b.noun, x.tail);
        } else if f.head.a == 8 && b.Product? {
          FuelMonotone(l, m, Cell(b.noun, s), x.tail);
        } else if f.head.a == 9 && x.head.Atom? && c.Product? && Slot(x.head.a, c.noun).Some? {
          FuelMonotone(l, m, c.noun, Slot(x.head.a, c.noun).value);
        } else if f.head.a in {10, 11} && x.head.Cell? {
          FuelMonotone(l, m, s, x.head.tail);
        }
      }
    }
  }

  /** A formula has at most one outcome on a subject: two products agree, and it
      cannot both crash and have a product. */
  lemma OutcomeUnique(s: Noun, f: Noun, p: Noun)
    requires Yields(s, f, p)
    ensures forall q :: Yields(s, f, q) ==> q == p
    ensures !Crashes(s, f)
  {
    var i: nat :| Eval(i, s, f) == Product(p);
    forall j: nat | Eval(j, s, f) != OutOfFuel
      ensures Eval(j, s, f) == Product(p)
    {
      if i <= j { FuelMonotone(i, j, s, f); } else { FuelMonotone(j, i, s, f); }
    }
  }

  /** With `enough` fuel or more, `f` on `s` ends in `out`. */
  ghost predicate Ends(enough: nat, s: Noun, f: Noun, out: Outcome) {
    forall more: nat :: more >= enough ==> Eval(more, s, f) == out
  }

  lemma {:induction false} Settled(fuel: nat, s: Noun, f: Noun)
    requires Eval(fuel, s, f) != OutOfFuel
    ensures Ends(fuel, s, f, Eval(fuel, s, f))
  {
    forall more: nat | more >= fuel ensures Eval(more, s, f) == Eval(fuel, s, f) {
      FuelMonotone(fuel, more, s, f);
    }
  }

  // ----- reading and editing -----

  /** What an edit put at an axis is read there; an edit crashes exactly where a read does. */
  lemma {:induction false} EditReads(axis: nat, v: Noun, t: Noun)
    requires axis >= 1
    ensures Edit(axis, v, t).Some? <==> Slot(axis, t).Some?
    ensures Edit(axis, v, t).Some? ==> Slot(axis, Edit(axis, v, t).value) == Some(v)
  {
    if axis > 1 {
      var sibling := if axis % 2 == 0 then axis + 1 else axis - 1;
      assert sibling / 2 == axis / 2;
      if Slot(sibling, t).Some? {
        var fragment := Slot(sibling, t).value;
        EditReads(axis / 2, if axis % 2 == 0 then Cell(v, fragment) else Cell(fragment, v), t);
      }
    }
  }

  /** `other` is a proper descendant of neither, nor the same axis: the paths part. */
  predicate Apart(axis: nat, other: nat) {
    axis >= 1 && other >= 1 && !Above(axis, other) && !Above(other, axis)
  }

  /** `axis` is on the way from the root to `other`. */
  predicate Above(axis: nat, other: nat) {
    axis == other || (other > 1 && Above(axis, other / 2))
  }

  /** And nothing away from the axis is touched. */
  lemma {:induction false} EditKeeps(axis: nat, v: Noun, t: Noun, other: nat)
    requires Apart(axis, other) && Edit(axis, v, t).Some?
    ensures Slot(other, Edit(axis, v, t).value) == Slot(other, t)
    decreases axis + other
  {
    OneIsAbove(axis);
    OneIsAbove(other);
    var sibling := if axis % 2 == 0 then axis + 1 else axis - 1;
    var next := if axis % 2 == 0 then Cell(v, Slot(sibling, t).value) else Cell(Slot(sibling, t).value, v);
    assert Edit(axis, v, t) == Edit(axis / 2, next, t);
    if Apart(axis / 2, other) {
      EditKeeps(axis / 2, next, t, other);
    } else {
      BelowSibling(axis, sibling, other);
      EditReads(axis / 2, next, t);
      SlotBelow(sibling, other, Edit(axis, v, t).value, t);
    }
  }

  lemma {:induction false} OneIsAbove(axis: nat)
    requires axis >= 1
    ensures Above(1, axis)
  {
    if axis > 1 { OneIsAbove(axis / 2); }
  }

  /** Below the parent but not below the axis is below the sibling. */
  lemma {:induction false} BelowSibling(axis: nat, sibling: nat, other: nat)
    requires axis > 1 && other > 1 && Apart(axis, other) && !Apart(axis / 2, other)
    requires sibling == if axis % 2 == 0 then axis + 1 else axis - 1
    ensures Above(sibling, other)
  {
    if !Above(other, axis / 2) { Child(axis / 2, other); }
  }

  lemma Child(axis: nat, other: nat)
    requires axis >= 1 && Above(axis, other) && axis != other
    ensures Above(2 * axis, other) || Above(2 * axis + 1, other)
  {
    if other / 2 != axis { Child(axis, other / 2); }
  }

  /** Trees that agree at an axis agree below it. */
  lemma {:induction false} SlotBelow(axis: nat, other: nat, t: Noun, u: Noun)
    requires axis >= 1 && Above(axis, other) && Slot(axis, t) == Slot(axis, u)
    ensures Slot(other, t) == Slot(other, u)
  {
    if axis != other { SlotBelow(axis, other / 2, t, u); }
  }
}
