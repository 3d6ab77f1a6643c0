/** Block inputs as the hull fetches, orders and links them (`chain.rs`). */
module Chain {
  import opened Prelude
  import opened LittleEndian

  type Bytes = seq<byte>

  type NoteData = seq<(string, Bytes)>

  datatype Input = Input(noteName: string, signers: seq<string>)

  /** `amount` is the output's amount in nicks, when the node states one. */
  datatype Output = Output(noteName: string, noteData: Option<NoteData>, amount: Option<nat>)

  datatype Tx = Tx(txId: string, inputs: seq<Input>, outputs: seq<Output>)

  datatype Fetch = Fetch(height: nat, pageDigest: Bytes, parent: Bytes, pageTxIds: seq<Bytes>, details: seq<Tx>)

  // ----- digest comparison -----

  function Head40(s: Bytes): Bytes {
    if |s| < 40 then s else s[..40]
  }

  function Pad40(s: Bytes): (r: Bytes)
    ensures |r| == 40
  {
    Head40(s) + Zeros(40 - |Head40(s)|)
  }

  function Limb(s: Bytes, i: nat): nat
    requires i < 5
  {
    Value(Pad40(s)[8 * i..8 * i + 8], 256)
  }

  /** Equal as little-endian atoms, as far as the first 40 bytes go. */
  predicate SameAtom(a: Bytes, b: Bytes) {
    Value(Head40(a), 256) == Value(Head40(b), 256)
  }

  method FiveLimbs(s: Bytes) returns (out: seq<nat>)
    ensures |out| == 5 && forall i :: 0 <= i < 5 ==> out[i] == Limb(s, i)
  {
    var padded := new byte[40](_ => 0);
    var n := if |s| < 40 then |s| else 40;
    for k := 0 to n
      invariant forall j :: 0 <= j < 40 ==> padded[j] == if j < k then s[j] else 0
    {
      padded[k] := s[k];
    }
    assert padded[..] == Pad40(s);
    var limbs := new nat[5];
    for i := 0 to 5
      invariant padded[..] == Pad40(s)
      invariant forall j :: 0 <= j < i ==> limbs[j] == Limb(s, j)
    {
      assert padded[8 * i..8 * i + 8] == padded[..][8 * i..8 * i + 8];
      limbs[i] := Value(padded[8 * i..8 * i + 8], 256);
    }
    out := limbs[..];
  }

  /** Limb-wise equality of the padded slices is equality of the atoms. */
  lemma LimbsDecide(a: Bytes, b: Bytes)
    ensures (forall i :: 0 <= i < 5 ==> Limb(a, i) == Limb(b, i)) <==> SameAtom(a, b)
  {
    var pa, pb := Pad40(a), Pad40(b);
    ValuePadded(Head40(a), 40 - |Head40(a)|, 256);
    ValuePadded(Head40(b), 40 - |Head40(b)|, 256);
    if SameAtom(a, b) {
      ValueInjective(pa, pb, 256);
    }
    if forall i :: 0 <= i < 5 ==> Limb(a, i) == Limb(b, i) {
      forall i | 0 <= i < 5 ensures pa[8 * i..8 * i + 8] == pb[8 * i..8 * i + 8] {
        assert Limb(a, i) == Limb(b, i);
        ValueInjective(pa[8 * i..8 * i + 8], pb[8 * i..8 * i + 8], 256);
      }
      forall j | 0 <= j < 40 ensures pa[j] == pb[j] {
        assert pa[j] == pa[8 * (j / 8)..8 * (j / 8) + 8][j % 8];
        assert pb[j] == pb[8 * (j / 8)..8 * (j / 8) + 8][j % 8];
      }
      assert pa == pb;
    }
  }

  method Tip5AtomSemanticEq(a: Bytes, b: Bytes) returns (eq: bool)
    ensures eq <==> SameAtom(a, b)
    ensures |a| <= 40 && |b| <= 40 ==> (eq <==> Value(a, 256) == Value(b, 256))
  {
    var x := FiveLimbs(a);
    var y := FiveLimbs(b);
    eq := x == y;
    LimbsDecide(a, b);
    assert eq <==> forall i :: 0 <= i < 5 ==> x[i] == y[i];
    assert |a| == 40 ==> a[..40] == a;
    assert |b| == 40 ==> b[..40] == b;
  }

  /** Beyond 40 bytes the comparison is blind: a 41st byte makes a different atom that
      passes for the same one. */
  lemma {:induction false} LongSlicesConfused(s: Bytes, b: byte)
    requires |s| == 40 && b != 0
    ensures SameAtom(s, s + [b]) && Value(s, 256) != Value(s + [b], 256)
  {
    assert (s + [b])[..40] == s == s[..40];
    ValuePadded(s, 1, 256);
    assert (s + [b])[40] != (s + Zeros(1))[40];
    if Value(s, 256) == Value(s + [b], 256) {
      ValueInjective(s + [b], s + Zeros(1), 256);
    }
  }

  /** What the comparison does not look at. */
  function Tail40(s: Bytes): Bytes {
    if |s| < 40 then [] else s[40..]
  }

  lemma PaddedParts(s: Bytes, n: nat)
    requires |s| <= n && 40 <= n
    ensures var p := s + Zeros(n - |s|);
            && Value(p, 256) == Value(s, 256)
            && Value(p[..40], 256) == Value(Head40(s), 256) && Value(p[40..], 256) == Value(Tail40(s), 256)
  {
    var p := s + Zeros(n - |s|);
    ValuePadded(s, n - |s|, 256);
    ValuePadded(Head40(s), 40 - |Head40(s)|, 256);
    assert p[..40] == Head40(s) + Zeros(40 - |Head40(s)|);
    ValuePadded(Tail40(s), n - 40 - |Tail40(s)|, 256);
    assert p[40..] == Tail40(s) + Zeros(n - 40 - |Tail40(s)|);
  }

  /** An atom is its first 40 bytes and the rest. */
  lemma {:induction false} ValueByParts(a: Bytes, b: Bytes)
    ensures Value(a, 256) == Value(b, 256) <==> SameAtom(a, b) && Value(Tail40(a), 256) == Value(Tail40(b), 256)
  {
    var n := 40 + |a| + |b|;
    var pa, pb := a + Zeros(n - |a|), b + Zeros(n - |b|);
    PaddedParts(a, n);
    PaddedParts(b, n);
    EqualByParts(pa, pb);
  }

  lemma {:induction false} EqualByParts(p: Bytes, q: Bytes)
    requires |p| == |q| >= 40
    ensures Value(p, 256) == Value(q, 256) <==>
            Value(p[..40], 256) == Value(q[..40], 256) && Value(p[40..], 256) == Value(q[40..], 256)
  {
    if Value(p, 256) == Value(q, 256) {
      ValueInjective(p, q, 256);
    }
    if Value(p[..40], 256) == Value(q[..40], 256) && Value(p[40..], 256) == Value(q[40..], 256) {
      ValueInjective(p[..40], q[..40], 256);
      ValueInjective(p[40..], q[40..], 256);
      assert p == p[..40] + p[40..] && q == q[..40] + q[40..];
    }
  }

  /** So the comparison is right about two slices exactly when they differ in the first 40
      bytes or have equal atoms behind them. */
  lemma {:induction false} ComparisonExact(a: Bytes, b: Bytes)
    ensures (SameAtom(a, b) <==> Value(a, 256) == Value(b, 256)) <==>
            (SameAtom(a, b) ==> Value(Tail40(a), 256) == Value(Tail40(b), 256))
  {
    ValueByParts(a, b);
  }

  predicate GenesisBoot(lastHeight: nat, lastDigest: Bytes) {
    lastHeight == 0 && SameAtom(lastDigest, Zeros(40))
  }

  // ----- linking a batch -----

  /** Each parent is the digest before it; at boot the first parent is free. */
  predicate BatchLinks(boot: bool, exp: Bytes, blocks: seq<Fetch>)
    decreases blocks
  {
    blocks != [] ==>
      && (boot || SameAtom(blocks[0].parent, exp))
      && BatchLinks(false, blocks[0].pageDigest, blocks[1..])
  }

  /** The parent of block `i` is the digest before it. */
  ghost predicate LinkedAt(boot: bool, exp: Bytes, blocks: seq<Fetch>, i: nat)
    requires i < |blocks|
  {
    if i == 0 then boot || SameAtom(blocks[0].parent, exp) else SameAtom(blocks[i].parent, blocks[i - 1].pageDigest)
  }

  lemma {:induction false} BatchLinksMeans(boot: bool, exp: Bytes, blocks: seq<Fetch>)
    ensures BatchLinks(boot, exp, blocks) <==> forall i: nat :: i < |blocks| ==> LinkedAt(boot, exp, blocks, i)
    decreases blocks
  {
    if blocks != [] {
      var rest := blocks[1..];
      BatchLinksMeans(false, blocks[0].pageDigest, rest);
      assert LinkedAt(boot, exp, blocks, 0) <==> boot || SameAtom(blocks[0].parent, exp);
      forall i: nat | i < |rest|
        ensures LinkedAt(false, blocks[0].pageDigest, rest, i) <==> LinkedAt(boot, exp, blocks, i + 1)
      {
      }
      if forall i: nat :: i < |rest| ==> LinkedAt(false, blocks[0].pageDigest, rest, i) {
        forall i: nat | 0 < i < |blocks| ensures LinkedAt(boot, exp, blocks, i) {
          assert LinkedAt(false, blocks[0].pageDigest, rest, i - 1);
        }
      }
    }
  }

  method ValidateScanBlockChain(lastHeight: nat, lastDigest: Bytes, blocks: seq<Fetch>) returns (r: Result<()>)
    ensures r.Ok? <==> BatchLinks(GenesisBoot(lastHeight, lastDigest), lastDigest, blocks)
    ensures r.Ok? <==>
            forall i: nat :: i < |blocks| ==> LinkedAt(GenesisBoot(lastHeight, lastDigest), lastDigest, blocks, i)
  {
    BatchLinksMeans(GenesisBoot(lastHeight, lastDigest), lastDigest, blocks);
    var atZero := Tip5AtomSemanticEq(lastDigest, Zeros(40));
    var genesisBoot := lastHeight == 0 && atZero;
    var exp := lastDigest;
    for i := 0 to |blocks|
      invariant BatchLinks(genesisBoot, lastDigest, blocks) <==> BatchLinks(genesisBoot && i == 0, exp, blocks[i..])
    {
      var skip := genesisBoot && i == 0;
      var links := Tip5AtomSemanticEq(blocks[i].parent, exp);
      assert blocks[i..][1..] == blocks[i + 1..];
      if !skip && !links {
        return Err;
      }
      exp := blocks[i].pageDigest;
    }
    r := Ok(());
  }

  // ----- transaction order -----

  /** The hull's foreign code: base58 decoding, and the z-set traversal order of a
      set of transaction ids. */
  datatype Codec = Codec(decode: string -> Option<Bytes>, zset: set<Bytes> -> seq<Bytes>)

  /** A traversal lists every member once. */
  ghost predicate Traverses(codec: Codec) {
    forall ids: set<Bytes> ::
      && (forall x :: x in codec.zset(ids) <==> x in ids)
      && NoDuplicates(codec.zset(ids))
  }

  ghost predicate NoDuplicates<T>(xs: seq<T>) {
    forall i, j :: 0 <= i < j < |xs| ==> xs[i] != xs[j]
  }

  /** Ids that are not all 40 bytes keep their order; duplicates are refused. */
  ghost function CanonicalOrder(codec: Codec, pageTxIds: seq<Bytes>): Result<seq<Bytes>> {
    if pageTxIds == [] || exists id :: id in pageTxIds && |id| != 40 then Ok(pageTxIds)
    else if NoDuplicates(pageTxIds) then Ok(codec.zset(set id | id in pageTxIds))
    else Err
  }

  ghost predicate FullIds(ids: seq<Bytes>) {
    forall id :: id in ids ==> |id| == 40
  }

  method CanonicalZSetTxOrder(codec: Codec, pageTxIds: seq<Bytes>) returns (r: Result<seq<Bytes>>)
    ensures r == CanonicalOrder(codec, pageTxIds)
    ensures !FullIds(pageTxIds) || pageTxIds == [] ==> r == Ok(pageTxIds)
    ensures FullIds(pageTxIds) && pageTxIds != [] ==>
              && (r.Err? <==> !NoDuplicates(pageTxIds))
              && (r.Ok? ==> IsWalk(codec, pageTxIds, r.value))
  {
    if pageTxIds == [] {
      return Ok([]);
    }
    if exists id | id in pageTxIds :: |id| != 40 {
      return Ok(pageTxIds);
    }
    var seen: set<Bytes> := {};
    for i := 0 to |pageTxIds|
      invariant seen == set id | id in pageTxIds[..i]
      invariant NoDuplicates(pageTxIds[..i])
    {
      if pageTxIds[i] in seen {
        assert exists j :: 0 <= j < i && pageTxIds[j] == pageTxIds[i];
        return Err;
      }
      seen := seen + {pageTxIds[i]};
      assert pageTxIds[..i + 1] == pageTxIds[..i] + [pageTxIds[i]];
    }
    assert pageTxIds[..|pageTxIds|] == pageTxIds;
    r := Ok(codec.zset(seen));
  }

  /** `walk` is the z-set traversal of `ids`, position by position. */
  ghost predicate IsWalk(codec: Codec, ids: seq<Bytes>, walk: seq<Bytes>) {
    var traversal := codec.zset(set id | id in ids);
    |walk| == |traversal| && forall i :: 0 <= i < |walk| ==> walk[i] == traversal[i]
  }

  /** On a page of distinct 40-byte ids, one comes before another in canonical order exactly
      when it does in the z-set traversal. */
  lemma CanonicalFollowsTraversal(codec: Codec, ids: seq<Bytes>, canonical: seq<Bytes>, i: nat, j: nat, p: nat, q: nat)
    requires Traverses(codec) && NoDuplicates(ids) && FullIds(ids) && ids != []
    requires CanonicalOrder(codec, ids) == Ok(canonical) && i < |canonical| && j < |canonical|
    requires var traversal := codec.zset(set id | id in ids);
             p < |traversal| && q < |traversal| && traversal[p] == canonical[i] && traversal[q] == canonical[j]
    ensures i < j <==> p < q
  {
    assert NoDuplicates(codec.zset(set id | id in ids));
  }

  /** Canonical order keeps a page's ids, each once, and is settled after one application. */
  lemma CanonicalOrderSettles(codec: Codec, pageTxIds: seq<Bytes>)
    requires Traverses(codec) && NoDuplicates(pageTxIds)
    ensures CanonicalOrder(codec, pageTxIds).Ok?
    ensures var canonical := CanonicalOrder(codec, pageTxIds).value;
            && NoDuplicates(canonical) && (forall id :: id in canonical <==> id in pageTxIds)
            && CanonicalOrder(codec, canonical) == Ok(canonical)
  {
    var canonical := CanonicalOrder(codec, pageTxIds).value;
    var members := set id | id in pageTxIds;
    assert forall x :: x in codec.zset(members) <==> x in members;
    assert (set id | id in canonical) == members;
  }

  /** Canonical order forgets the order the ids were fetched in. */
  lemma FetchOrderForgotten(codec: Codec, ids: seq<Bytes>, ids': seq<Bytes>)
    requires NoDuplicates(ids) && NoDuplicates(ids') && forall id :: id in ids <==> id in ids'
    requires forall id :: id in ids ==> |id| == 40
    ensures CanonicalOrder(codec, ids) == CanonicalOrder(codec, ids')
  {
    if ids != [] { assert ids[0] in ids'; }
    if ids' != [] { assert ids'[0] in ids; }
    assert (set id | id in ids) == (set id | id in ids');
  }

  /** The last transaction with a given decoded id. */
  function LastWith(codec: Codec, details: seq<Tx>, id: Bytes): (r: Option<Tx>)
    ensures r.Some? ==> r.value in details && codec.decode(r.value.txId) == Some(id)
    ensures r.None? ==> forall d :: d in details ==> codec.decode(d.txId) != Some(id)
  {
    if details == [] then None
    else
      var last := details[|details| - 1];
      if codec.decode(last.txId) == Some(id) then Some(last) else LastWith(codec, details[..|details| - 1], id)
  }

  /** `d` is at position `j`, has the id, and no later one has. */
  ghost predicate LastAt(codec: Codec, details: seq<Tx>, id: Bytes, j: int, d: Tx) {
    && 0 <= j < |details| && details[j] == d && codec.decode(d.txId) == Some(id)
    && forall k :: j < k < |details| ==> codec.decode(details[k].txId) != Some(id)
  }

  ghost predicate IsLatest(codec: Codec, details: seq<Tx>, id: Bytes, d: Tx) {
    exists j :: LastAt(codec, details, id, j, d)
  }

  lemma LastWithMeans(codec: Codec, details: seq<Tx>, id: Bytes) returns (j: int)
    requires LastWith(codec, details, id).Some?
    ensures LastAt(codec, details, id, j, LastWith(codec, details, id).value)
    decreases |details|
  {
    j := |details| - 1;
    if codec.decode(details[j].txId) != Some(id) {
      j := LastWithMeans(codec, details[..j], id);
    }
  }

  ghost predicate Decodable(codec: Codec, details: seq<Tx>) {
    forall d :: d in details ==> codec.decode(d.txId).Some?
  }

  /** The canonical list and the details name the same transactions, each once in the list. */
  ghost predicate Alignable(codec: Codec, canonical: seq<Bytes>, details: seq<Tx>) {
    && Decodable(codec, details)
    && NoDuplicates(canonical)
    && (forall id :: id in canonical ==> LastWith(codec, details, id).Some?)
    && forall d :: d in details ==> codec.decode(d.txId).value in canonical
  }

  /** The details by decoded id, a later one displacing an earlier one. */
  method IndexById(codec: Codec, details: seq<Tx>) returns (r: Result<map<Bytes, Tx>>)
    ensures r.Ok? <==> Decodable(codec, details)
    ensures r.Ok? ==> forall id :: LastWith(codec, details, id) == if id in r.value then Some(r.value[id]) else None
  {
    var byId: map<Bytes, Tx> := map[];
    for i := 0 to |details|
      invariant Decodable(codec, details[..i])
      invariant forall id :: LastWith(codec, details[..i], id) == if id in byId then Some(byId[id]) else None
    {
      var atom := codec.decode(details[i].txId);
      if atom.None? {
        return Err;
      }
      byId := byId[atom.value := details[i]];
      assert details[..i + 1] == details[..i] + [details[i]];
    }
    assert details[..|details|] == details;
    r := Ok(byId);
  }

  method AlignTransactionDetails(codec: Codec, canonical: seq<Bytes>, details: seq<Tx>) returns (r: Result<seq<Tx>>)
    ensures r.Ok? <==> Alignable(codec, canonical, details)
    ensures r.Ok? ==> |r.value| == |canonical|
    ensures r.Ok? ==> forall i :: 0 <= i < |canonical| ==> LastWith(codec, details, canonical[i]) == Some(r.value[i])
    ensures r.Ok? ==> LatestDetails(codec, canonical, details, r.value)
  {
    var all :- IndexById(codec, details);
    var byId, ordered: seq<Tx> := all, [];
    for i := 0 to |canonical|
      invariant |ordered| == i && NoDuplicates(canonical[..i])
      invariant forall j :: 0 <= j < i ==> canonical[j] in all && ordered[j] == all[canonical[j]]
      invariant byId == all - set id | id in canonical[..i]
    {
      var id := canonical[i];
      assert canonical[..i + 1] == canonical[..i] + [id];
      if id !in byId {
        assert id in all ==> exists j :: 0 <= j < i && canonical[j] == id;
        return Err;
      }
      ordered := ordered + [byId[id]];
      byId := byId - {id};
    }
    assert canonical[..|canonical|] == canonical;
    if byId != map[] {
      var id :| id in byId;
      assert LastWith(codec, details, id).Some?;
      return Err;
    }
    forall d | d in details ensures codec.decode(d.txId).value in canonical {
      var id := codec.decode(d.txId).value;
      assert LastWith(codec, details, id).Some? && id !in byId;
    }
    AllLast(codec, canonical, details, ordered);
    r := Ok(ordered);
  }

  lemma {:induction false} AllLast(codec: Codec, canonical: seq<Bytes>, details: seq<Tx>, ordered: seq<Tx>)
    requires |ordered| == |canonical|
    requires forall i :: 0 <= i < |canonical| ==> LastWith(codec, details, canonical[i]) == Some(ordered[i])
    ensures LatestDetails(codec, canonical, details, ordered)
  {
    forall i | 0 <= i < |canonical| ensures IsLatest(codec, details, canonical[i], ordered[i]) {
      var j := LastWithMeans(codec, details, canonical[i]);
      assert LastAt(codec, details, canonical[i], j, ordered[i]);
    }
  }

  /** For every id of the list, the last of the details that has it. */
  ghost predicate LatestDetails(codec: Codec, canonical: seq<Bytes>, details: seq<Tx>, ordered: seq<Tx>) {
    && |ordered| == |canonical|
    && forall i :: 0 <= i < |canonical| ==> IsLatest(codec, details, canonical[i], ordered[i])
  }
}
