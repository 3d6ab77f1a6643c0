/** The hull's independent opcode scanner (`formula_nock.rs`) against the rewriter. */
module OpcodeScan {
  import opened Prelude
  import opened Nock
  import opened Normalizer

  /** Some cell of the noun has the atom 9, 10 or 11 for its head. */
  predicate Banned(n: Noun) {
    n.Cell? && ((n.head.Atom? && 9 <= n.head.a <= 11) || Banned(n.head) || Banned(n.tail))
  }

  /** The fragment at `axis` is a cell whose head is the atom 9, 10 or 11. */
  predicate BannedAt(axis: nat, n: Noun) {
    var m := Slot(axis, n);
    m.Some? && m.value.Cell? && m.value.head in {Atom(9), Atom(10), Atom(11)}
  }

  /** The scanner finds every such fragment, wherever it is, and nothing else. */
  lemma {:induction false} BannedMeans(n: Noun)
    ensures Banned(n) <==> exists axis :: BannedAt(axis, n)
  {
    if Banned(n) {
      var axis := FindBanned(n);
    }
    forall axis | BannedAt(axis, n) ensures Banned(n) {
      BannedUp(axis, n);
    }
  }

  lemma FindBanned(n: Noun) returns (axis: nat)
    requires Banned(n)
    ensures axis >= 1 && BannedAt(axis, n)
  {
    axis := 1;
    if !BannedAt(1, n) {
      var side := if Banned(n.head) then n.head else n.tail;
      axis := FindBanned(side);
      axis := Below(if side == n.head then 2 else 3, axis, n, side);
    }
  }

  /** The axis, in `n`, of what `side` has at `axis`. */
  lemma Below(at: nat, axis: nat, n: Noun, side: Noun) returns (r: nat)
    requires axis >= 1 && at >= 1 && Slot(at, n) == Some(side)
    ensures r >= 1 && Slot(r, n) == Slot(axis, side)
  {
    if axis == 1 {
      r := at;
    } else {
      var parent := Below(at, axis / 2, n, side);
      r := 2 * parent + axis % 2;
    }
  }

  lemma {:induction false} BannedUp(axis: nat, n: Noun)
    requires Slot(axis, n).Some? && Banned(Slot(axis, n).value)
    ensures Banned(n)
  {
    if axis > 1 { BannedUp(axis / 2, n); }
  }

  /** A Nock formula all of whose opcodes, shapes and edit axes are those Nock 4K can
      reduce, quoting only constants the scanner accepts. */
  predicate WellFormed(f: Noun) {
    && f.Cell?
    && (f.head.Atom? ==>
          && f.head.a <= 11
          && (f.head.a == 0 ==> f.tail.Atom?)
          && (f.head.a in {2, 5, 6, 7, 8, 9, 10, 11} ==> f.tail.Cell?)
          && (f.head.a == 6 ==> f.tail.tail.Cell?)
          && (f.head.a == 9 ==> f.tail.head.Atom?)
          && (f.head.a == 10 ==> IsEdit(f) && f.tail.head.head.a >= 1))
    && if f.head == Atom(1) then !Banned(f.tail)
       else forall c | c in Children(f) :: WellFormed(c)
  }

  /** What the scanner accepts, the rewriter leaves alone. */
  lemma {:induction false} CleanIsFixed(f: Noun)
    requires !Banned(f)
    ensures AxesPositive(f) && Normalize(f) == f
    decreases f
  {
    if f.Cell? && f.tail.Cell? {
      assert !Banned(f.tail.head) && !Banned(f.tail.tail);
    }
    forall c | c in Children(f) ensures AxesPositive(c) && Normalize(c) == c {
      CleanIsFixed(c);
    }
  }

  lemma {:induction false} Op2Clean(op: nat, b: Noun, c: Noun)
    requires !(9 <= op <= 11) && b.Cell?
    ensures Banned(Op2(op, b, c)) == (Banned(b) || Banned(c))
  {
    assert Banned(Cell(b, c)) == (Banned(b) || Banned(c));
  }

  lemma {:induction false} RebuildClean(axis: nat, current: Noun)
    requires axis >= 1 && current.Cell? && !Banned(current)
    ensures !Banned(RebuildAtAxis(axis, current))
    ensures RebuildAtAxis(axis, current).Cell?
    decreases axis
  {
    if axis > 1 {
      var isHead := axis % 2 == 0;
      var fetch := Op1(0, Atom(TaAxis(if isHead then axis + 1 else axis - 1)));
      assert !Banned(fetch);
      RebuildClean(axis / 2, if isHead then Cell(current, fetch) else Cell(fetch, current));
    }
  }

  /** The rewriter leaves nothing for the scanner to find in a well-formed formula. */
  lemma {:induction false} NormalizeClean(f: Noun)
    requires WellFormed(f)
    ensures AxesPositive(f) && Normalize(f).Cell? && !Banned(Normalize(f))
    decreases f
  {
    if f.head == Atom(1) {
      CleanIsFixed(f.tail);
      assert Children(f) == [f.tail];
    } else {
      forall c | c in Children(f)
        ensures AxesPositive(c) && Normalize(c).Cell? && !Banned(Normalize(c))
      {
        NormalizeClean(c);
      }
      if f.head.Atom? {
        var op, x := f.head.a, f.tail;
        if op in {2, 5, 7, 8} {
          Op2Clean(op, Normalize(x.head), Normalize(x.tail));
        } else if op == 6 {
          var arms := Cell(Normalize(x.tail.head), Normalize(x.tail.tail));
          assert !Banned(arms);
          Op2Clean(6, Normalize(x.head), arms);
        } else if op == 9 {
          Op2Clean(2, Op1(0, Atom(1)), Op1(0, x.head));
          Op2Clean(7, Normalize(x.tail), Op2(2, Op1(0, Atom(1)), Op1(0, x.head)));
        } else if op == 10 {
          var value := Op2(7, Op1(0, Atom(3)), Normalize(x.head.tail));
          Op2Clean(7, Op1(0, Atom(3)), Normalize(x.head.tail));
          RebuildClean(x.head.head.a, value);
          Op2Clean(8, Normalize(x.tail), RebuildAtAxis(x.head.head.a, value));
        } else if op == 11 {
          Op2Clean(7, Op1(0, Atom(1)), Normalize(x.tail));
        }
      }
    }
  }

  /** On well-formed formulas the scanner and the rewriter give the same verdict. */
  lemma {:induction false} ScannerAgreesWithRewriter(f: Noun)
    requires WellFormed(f)
    ensures AxesPositive(f) && (!Banned(f) <==> Normalize(f) == f)
  {
    NormalizeClean(f);
    if !Banned(f) { CleanIsFixed(f); }
  }
}
