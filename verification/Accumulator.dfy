/** The first-writer-wins name accumulator and its canonical encoding (`nns-accumulator.hoon`). */
module Accumulator {
  import opened Prelude
  import opened LittleEndian

  /** A Tip5 digest: five field limbs. */
  datatype Digest = Digest(k0: nat, k1: nat, k2: nat, k3: nat, k4: nat)

  /** The `hashable` nouns that Tip5 digests. */
  datatype Hashable = Leaf(a: nat) | List(items: seq<Hashable>) | Pair(l: Hashable, r: Hashable)

  /** `hash-hashable`: nothing is assumed of it but that it is a function. */
  type Tip5 = Hashable -> Digest

  datatype Entry = Entry(name: nat, owner: nat, txHash: nat, claimHeight: nat, blockDigest: nat)

  /** The z-map. */
  type Acc = map<Digest, Entry>

  const CHUNK: nat := 0x1_0000_0000

  function Chunks(a: nat): Hashable {
    var ds := Digits(a, CHUNK);
    List(seq(|ds|, i requires 0 <= i < |ds| => Leaf(ds[i])))
  }

  function NameKey(tip5: Tip5, name: nat): Digest {
    tip5(Chunks(name))
  }

  function Has(tip5: Tip5, acc: Acc, name: nat): bool {
    NameKey(tip5, name) in acc
  }

  function Insert(tip5: Tip5, acc: Acc, name: nat, entry: Entry): Acc {
    var k := NameKey(tip5, name);
    if k in acc then acc else acc[k := entry.(name := name)]
  }

  function InsertAll(tip5: Tip5, acc: Acc, items: seq<(nat, Entry)>): Acc
    decreases items
  {
    if items == [] then acc
    else InsertAll(tip5, Insert(tip5, acc, items[0].0, items[0].1), items[1..])
  }

  function FromList(tip5: Tip5, items: seq<(nat, Entry)>): Acc {
    InsertAll(tip5, map[], items)
  }

  /** Every row sits under the key of its own name. */
  ghost predicate Keyed(tip5: Tip5, acc: Acc) {
    forall k | k in acc :: k == NameKey(tip5, acc[k].name)
  }

  // ----- first writer wins -----

  /** The position of the first item with key `k`. */
  function FirstWriter(tip5: Tip5, items: seq<(nat, Entry)>, k: Digest): (r: Option<nat>)
    ensures r.Some? ==>
              && r.value < |items| && NameKey(tip5, items[r.value].0) == k
              && forall j :: 0 <= j < r.value ==> NameKey(tip5, items[j].0) != k
    ensures r.None? ==> forall j :: 0 <= j < |items| ==> NameKey(tip5, items[j].0) != k
  {
    if items == [] then None
    else if NameKey(tip5, items[0].0) == k then Some(0)
    else
      var rest :- FirstWriter(tip5, items[1..], k);
      Some(rest + 1)
  }

  /** After any insertions a key holds what it held before, or else the first item
      written under it, or else nothing. */
  lemma {:induction false} InsertAllLookup(tip5: Tip5, acc: Acc, items: seq<(nat, Entry)>, k: Digest)
    ensures var out, first := InsertAll(tip5, acc, items), FirstWriter(tip5, items, k);
            if k in acc then k in out && out[k] == acc[k]
            else if first.Some? then k in out && out[k] == items[first.value].1.(name := items[first.value].0)
            else k !in out
    decreases items
  {
    if items != [] {
      InsertAllLookup(tip5, Insert(tip5, acc, items[0].0, items[0].1), items[1..], k);
    }
  }

  lemma {:induction false} InsertAllKeyed(tip5: Tip5, acc: Acc, items: seq<(nat, Entry)>)
    requires Keyed(tip5, acc)
    ensures Keyed(tip5, InsertAll(tip5, acc, items))
    decreases items
  {
    if items != [] {
      InsertAllKeyed(tip5, Insert(tip5, acc, items[0].0, items[0].1), items[1..]);
    }
  }

  ghost predicate DistinctKeys(tip5: Tip5, items: seq<(nat, Entry)>) {
    forall x, y | x in items && y in items && NameKey(tip5, x.0) == NameKey(tip5, y.0) :: x == y
  }

  /** Rows with distinct keys build the same accumulator in whatever order they come. */
  lemma OrderIrrelevant(tip5: Tip5, items: seq<(nat, Entry)>, items': seq<(nat, Entry)>)
    requires DistinctKeys(tip5, items)
    requires forall x :: x in items <==> x in items'
    ensures FromList(tip5, items) == FromList(tip5, items')
  {
    var acc, acc' := FromList(tip5, items), FromList(tip5, items');
    forall k ensures k in acc <==> k in acc'
             ensures k in acc && k in acc' ==> acc[k] == acc'[k]
    {
      InsertAllLookup(tip5, map[], items, k);
      InsertAllLookup(tip5, map[], items', k);
      var f, f' := FirstWriter(tip5, items, k), FirstWriter(tip5, items', k);
      if f.Some? {
        assert items[f.value] in items';
      }
      if f'.Some? {
        assert items'[f'.value] in items;
      }
    }
  }

  // ----- canonical encoding -----

  type Row = (Digest, Entry)

  function HashableEntry(e: Entry): Hashable {
    List([Chunks(e.owner), Chunks(e.txHash), Leaf(e.claimHeight), Chunks(e.blockDigest)])
  }

  function HashableRow(row: Row): Hashable {
    Pair(Chunks(row.1.name), HashableEntry(row.1))
  }

  function Select(rows: seq<Row>, name: nat, below: bool): (r: seq<Row>)
    ensures forall x :: x in r <==> x in rows && (x.1.name < name) == below
    ensures |r| <= |rows|
    ensures DistinctNames(rows) ==> DistinctNames(r)
  {
    if rows == [] then []
    else
      var rest := Select(rows[1..], name, below);
      if (rows[0].1.name < name) == below then [rows[0]] + rest else rest
  }

  /** The list sort: split on the head, sort both halves. */
  function SortRows(rows: seq<Row>): seq<Row>
    decreases |rows|
  {
    if rows == [] then []
    else
      var pivot := rows[0];
      SortRows(Select(rows[1..], pivot.1.name, true)) + [pivot] + SortRows(Select(rows[1..], pivot.1.name, false))
  }

  function HashableRows(rows: seq<Row>): Hashable {
    var sorted := SortRows(rows);
    List(seq(|sorted|, i requires 0 <= i < |sorted| => HashableRow(sorted[i])))
  }

  /** `rows` lists the map, each binding once, in some traversal order. */
  ghost predicate Taps(rows: seq<Row>, acc: Acc) {
    && (forall k, e :: (k, e) in rows <==> k in acc && acc[k] == e)
    && forall i, j :: 0 <= i < j < |rows| ==> rows[i].0 != rows[j].0
  }

  ghost predicate DistinctNames(rows: seq<Row>) {
    forall i, j :: 0 <= i < j < |rows| ==> rows[i].1.name != rows[j].1.name
  }

  ghost predicate Ascending(rows: seq<Row>) {
    forall i, j :: 0 <= i < j < |rows| ==> rows[i].1.name < rows[j].1.name
  }

  lemma AscendingJoin(a: seq<Row>, pivot: Row, b: seq<Row>)
    requires Ascending(a) && Ascending(b)
    requires forall i :: 0 <= i < |a| ==> a[i].1.name < pivot.1.name
    requires forall i :: 0 <= i < |b| ==> pivot.1.name < b[i].1.name
    ensures Ascending(a + [pivot] + b)
  {
  }

  lemma {:induction false} SortRowsSorts(rows: seq<Row>)
    requires DistinctNames(rows)
    ensures Ascending(SortRows(rows))
    ensures forall x :: x in SortRows(rows) <==> x in rows
    decreases |rows|
  {
    if rows != [] {
      var pivot, rest := rows[0], rows[1..];
      var lo, hi := Select(rest, pivot.1.name, true), Select(rest, pivot.1.name, false);
      SortRowsSorts(lo);
      SortRowsSorts(hi);
      var a, b := SortRows(lo), SortRows(hi);
      assert forall i :: 0 <= i < |a| ==> a[i] in lo;
      forall i | 0 <= i < |b| ensures pivot.1.name < b[i].1.name {
        assert b[i] in hi && b[i] in rest;
      }
      AscendingJoin(a, pivot, b);
      forall x ensures x in SortRows(rows) <==> x in rows {
        assert x in rows <==> x == pivot || x in rest;
        assert x in rest <==> x in lo || x in hi;
      }
    }
  }

  /** Ascending lists of the same rows are the same list. */
  lemma AscendingUnique(xs: seq<Row>, ys: seq<Row>)
    requires Ascending(xs) && Ascending(ys)
    requires forall x :: x in xs <==> x in ys
    ensures xs == ys
  {
    if xs != [] { assert xs[0] in ys; }
    if ys != [] { assert ys[0] in xs; }
    if xs != [] {
      assert xs[0] == ys[0];
      forall x ensures x in xs[1..] <==> x in ys[1..] {
        assert x in xs <==> x == xs[0] || x in xs[1..];
        assert x in ys <==> x == ys[0] || x in ys[1..];
      }
      AscendingUnique(xs[1..], ys[1..]);
    }
  }

  lemma ChunksInjective(a: nat, b: nat)
    requires Chunks(a) == Chunks(b)
    ensures a == b
  {
    var xs, ys := Digits(a, CHUNK), Digits(b, CHUNK);
    assert |Chunks(a).items| == |xs| && |Chunks(b).items| == |ys|;
    forall i | 0 <= i < |xs| ensures xs[i] == ys[i] {
      assert Chunks(a).items[i] == Leaf(xs[i]) && Chunks(b).items[i] == Leaf(ys[i]);
    }
    DigitsInjective(a, b, CHUNK);
  }

  lemma RowInjective(x: Row, y: Row)
    requires HashableRow(x) == HashableRow(y)
    ensures x.1 == y.1
  {
    ChunksInjective(x.1.name, y.1.name);
    var a, b := HashableEntry(x.1).items, HashableEntry(y.1).items;
    assert a[0] == b[0] && a[1] == b[1] && a[2] == b[2] && a[3] == b[3];
    ChunksInjective(x.1.owner, y.1.owner);
    ChunksInjective(x.1.txHash, y.1.txHash);
    ChunksInjective(x.1.blockDigest, y.1.blockDigest);
  }

  lemma {:induction false} TapsSort(tip5: Tip5, acc: Acc, rows: seq<Row>)
    requires Keyed(tip5, acc) && Taps(rows, acc)
    ensures Ascending(SortRows(rows)) && Taps(SortRows(rows), acc)
  {
    forall i, j | 0 <= i < j < |rows| ensures rows[i].1.name != rows[j].1.name {
      assert (rows[i].0, rows[i].1) in rows && (rows[j].0, rows[j].1) in rows;
    }
    SortRowsSorts(rows);
    var sorted := SortRows(rows);
    forall i, j | 0 <= i < j < |sorted| ensures sorted[i].0 != sorted[j].0 {
      assert (sorted[i].0, sorted[i].1) in sorted && (sorted[j].0, sorted[j].1) in sorted;
    }
  }

  /** The encoding is canonical and injective: whatever order the z-maps are walked
      in, two keyed accumulators encode alike exactly when they are the same map. */
  lemma EncodingCanonical(tip5: Tip5, acc: Acc, rows: seq<Row>, acc': Acc, rows': seq<Row>)
    requires Keyed(tip5, acc) && Taps(rows, acc)
    requires Keyed(tip5, acc') && Taps(rows', acc')
    ensures HashableRows(rows) == HashableRows(rows') <==> acc == acc'
  {
    TapsSort(tip5, acc, rows);
    TapsSort(tip5, acc', rows');
    var xs, ys := SortRows(rows), SortRows(rows');
    if acc == acc' {
      forall x ensures x in xs <==> x in ys { assert x == (x.0, x.1); }
      AscendingUnique(xs, ys);
    }
    if HashableRows(rows) == HashableRows(rows') {
      EqualEncodings(tip5, acc, xs, acc', ys);
    }
  }

  lemma EqualEncodings(tip5: Tip5, acc: Acc, xs: seq<Row>, acc': Acc, ys: seq<Row>)
    requires Keyed(tip5, acc) && Taps(xs, acc)
    requires Keyed(tip5, acc') && Taps(ys, acc')
    requires seq(|xs|, i requires 0 <= i < |xs| => HashableRow(xs[i])) ==
             seq(|ys|, i requires 0 <= i < |ys| => HashableRow(ys[i]))
    ensures acc == acc'
  {
    var hs := seq(|xs|, i requires 0 <= i < |xs| => HashableRow(xs[i]));
    var gs := seq(|ys|, i requires 0 <= i < |ys| => HashableRow(ys[i]));
    assert |hs| == |xs| && |gs| == |ys|;
    forall i | 0 <= i < |xs| ensures xs[i] == ys[i] {
      assert hs[i] == HashableRow(xs[i]) && gs[i] == HashableRow(ys[i]);
      RowInjective(xs[i], ys[i]);
      assert (xs[i].0, xs[i].1) in xs && (ys[i].0, ys[i].1) in ys;
    }
    assert xs == ys;
    forall k ensures k in acc <==> k in acc'
             ensures k in acc && k in acc' ==> acc[k] == acc'[k]
    {
      if k in acc { assert (k, acc[k]) in ys; }
      if k in acc' { assert (k, acc'[k]) in xs; }
    }
  }

  /** Insertion history leaves no mark: the same distinct-key rows, inserted in any
      order and walked in any order, encode alike. */
  lemma HistoryIndependent(tip5: Tip5, items: seq<(nat, Entry)>, items': seq<(nat, Entry)>, rows: seq<Row>,
          rows': seq<Row>)
    requires DistinctKeys(tip5, items) && forall x :: x in items <==> x in items'
    requires Taps(rows, FromList(tip5, items)) && Taps(rows', FromList(tip5, items'))
    ensures HashableRows(rows) == HashableRows(rows')
  {
    OrderIrrelevant(tip5, items, items');
    InsertAllKeyed(tip5, map[], items);
    EncodingCanonical(tip5, FromList(tip5, items), rows, FromList(tip5, items'), rows');
  }

  // ----- what the encoding looks like -----

  /** `h` lists the base-2^32 digits of `a`, least significant first, and no more of them
      than it takes to reach `a`. */
  ghost predicate Encodes(h: Hashable, a: nat) {
    && h.List?
    && (forall i :: 0 <= i < |h.items| ==>
          Pow(CHUNK, i) >= 1 && h.items[i] == Leaf(a / Pow(CHUNK, i) % CHUNK))
    && a < Pow(CHUNK, |h.items|)
    && (h.items != [] ==> Pow(CHUNK, |h.items| - 1) <= a)
  }

  /** Chunks are such a list, and no other atom has the same. */
  lemma ChunksEncode(a: nat)
    ensures Encodes(Chunks(a), a)
    ensures forall b :: Encodes(Chunks(a), b) ==> b == a
  {
    ChunksDigits(a);
    forall b | Encodes(Chunks(a), b) ensures b == a {
      ChunksDigits(b);
      SameCount(b, |Chunks(a).items|, |Chunks(b).items|);
      assert Chunks(a).items == Chunks(b).items;
      ChunksInjective(a, b);
    }
  }

  lemma ChunksDigits(a: nat)
    ensures Encodes(Chunks(a), a)
  {
    var items := Chunks(a).items;
    DigitCount(a, CHUNK);
    forall i | 0 <= i < |items| ensures Pow(CHUNK, i) >= 1 && items[i] == Leaf(a / Pow(CHUNK, i) % CHUNK) {
      DigitAt(a, CHUNK, i);
    }
  }

  /** Only one number of digits reaches an atom without one to spare. */
  lemma SameCount(a: nat, m: nat, n: nat)
    requires a < Pow(CHUNK, m) && (m > 0 ==> Pow(CHUNK, m - 1) <= a)
    requires a < Pow(CHUNK, n) && (n > 0 ==> Pow(CHUNK, n - 1) <= a)
    ensures m == n
  {
    if m < n { PowMonotone(CHUNK, m, n - 1); }
    if n < m { PowMonotone(CHUNK, n, m - 1); }
  }

  /** A name's key is the digest of its digits. */
  lemma NameKeyIsDigest(tip5: Tip5, name: nat, h: Hashable)
    requires Encodes(h, name)
    ensures NameKey(tip5, name) == tip5(h)
  {
    ChunksDigits(name);
    SameCount(name, |h.items|, |Chunks(name).items|);
    assert h.items == Chunks(name).items;
  }

  /** A row as the accumulator's hashable holds it. */
  ghost predicate RowEncoded(item: Hashable, e: Entry) {
    && item.Pair? && Encodes(item.l, e.name)
    && item.r.List? && |item.r.items| == 4
    && Encodes(item.r.items[0], e.owner) && Encodes(item.r.items[1], e.txHash)
    && item.r.items[2] == Leaf(e.claimHeight)
    && Encodes(item.r.items[3], e.blockDigest)
  }

  lemma RowIsEncoded(row: Row)
    ensures RowEncoded(HashableRow(row), row.1)
  {
    ChunksDigits(row.1.name);
    ChunksDigits(row.1.owner);
    ChunksDigits(row.1.txHash);
    ChunksDigits(row.1.blockDigest);
  }

  ghost function Smaller(acc: Acc, name: nat): set<Digest> {
    set k | k in acc && acc[k].name < name
  }

  /** The names before position `i` of the sorted rows are the smaller ones. */
  lemma SortedBefore(tip5: Tip5, acc: Acc, rows: seq<Row>, i: nat)
    requires Taps(rows, acc) && Ascending(rows) && i < |rows|
    ensures rows[i].0 in acc && acc[rows[i].0] == rows[i].1
    ensures |Smaller(acc, rows[i].1.name)| == i
  {
    assert (rows[i].0, rows[i].1) in rows;
    var before := KeysOf(rows[..i]);
    forall k ensures k in Smaller(acc, rows[i].1.name) <==> k in before {
      if k in acc && acc[k].name < rows[i].1.name {
        assert (k, acc[k]) in rows;
        var j :| 0 <= j < |rows| && rows[j] == (k, acc[k]);
        assert rows[..i][j] == rows[j];
      }
      if k in before {
        var j :| 0 <= j < i && rows[..i][j].0 == k;
        assert rows[j] == (rows[j].0, rows[j].1) && rows[j] in rows;
      }
    }
    assert Smaller(acc, rows[i].1.name) == before;
    KeysCounted(rows[..i]);
  }

  ghost function KeysOf(rows: seq<Row>): set<Digest> {
    set j | 0 <= j < |rows| :: rows[j].0
  }

  lemma KeysCounted(rows: seq<Row>)
    requires forall i, j :: 0 <= i < j < |rows| ==> rows[i].0 != rows[j].0
    ensures |KeysOf(rows)| == |rows|
  {
    if rows != [] {
      var n := |rows| - 1;
      KeysCounted(rows[..n]);
      assert KeysOf(rows) == KeysOf(rows[..n]) + {rows[n].0};
    }
  }

  /** The layout of the encoding: as many items as rows, and the row with exactly `i`
      smaller names is item `i`, each field in its place. */
  lemma EncodingLayout(tip5: Tip5, acc: Acc, rows: seq<Row>)
    requires Keyed(tip5, acc) && Taps(rows, acc)
    ensures HashableRows(rows).List? && |HashableRows(rows).items| == |acc|
    ensures forall k :: k in acc ==>
              var i := |Smaller(acc, acc[k].name)|;
              i < |acc| && RowEncoded(HashableRows(rows).items[i], acc[k])
  {
    TapsSort(tip5, acc, rows);
    var sorted := SortRows(rows);
    KeysCounted(sorted);
    forall k ensures k in KeysOf(sorted) <==> k in acc {
      if k in acc {
        assert (k, acc[k]) in sorted;
      }
      if k in KeysOf(sorted) {
        var j :| 0 <= j < |sorted| && sorted[j].0 == k;
        assert sorted[j] == (sorted[j].0, sorted[j].1) && sorted[j] in sorted;
      }
    }
    assert KeysOf(sorted) == acc.Keys;
    forall k | k in acc
      ensures var i := |Smaller(acc, acc[k].name)|;
              i < |acc| && RowEncoded(HashableRows(rows).items[i], acc[k])
    {
      assert (k, acc[k]) in sorted;
      var i :| 0 <= i < |sorted| && sorted[i] == (k, acc[k]);
      SortedBefore(tip5, acc, sorted, i);
      RowIsEncoded(sorted[i]);
    }
  }
}
