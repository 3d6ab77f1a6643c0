/** The hull's two routes to scan order: align the transactions and then extract, or
    extract in fetch order and then sort the claims (`chain.rs`, `chain_follower.rs`). */
module TxOrder {
  import opened Prelude
  import opened Chain
  import opened Extraction

  /** A claim's position in the canonical list, the last one should it be listed twice;
      unlisted claims go last. */
  function Rank(canonical: seq<Bytes>, c: Candidate): nat {
    IndexOf(canonical, c.wit.txId)
  }

  function IndexOf(canonical: seq<Bytes>, id: Bytes): (r: nat)
    ensures r < |canonical| ==> canonical[r] == id
    ensures r < |canonical| ==> forall j :: r < j < |canonical| ==> canonical[j] != id
    ensures r >= |canonical| ==> r == |canonical| && id !in canonical
  {
    if canonical == [] then 0
    else
      var n := |canonical| - 1;
      if canonical[n] == id then n
      else
        var r := IndexOf(canonical[..n], id);
        if r == n then n + 1 else r
  }

  /** `sort_by_key`: a stable sort on rank. */
  function SortByRank(canonical: seq<Bytes>, claims: seq<Candidate>): seq<Candidate> {
    if claims == [] then [] else Place(canonical, claims[0], SortByRank(canonical, claims[1..]))
  }

  /** Before the first claim that does not rank lower. */
  function Place(canonical: seq<Bytes>, c: Candidate, sorted: seq<Candidate>): seq<Candidate> {
    if sorted == [] || Rank(canonical, c) <= Rank(canonical, sorted[0]) then [c] + sorted
    else [sorted[0]] + Place(canonical, c, sorted[1..])
  }

  ghost predicate Ordered(canonical: seq<Bytes>, claims: seq<Candidate>) {
    forall i, j :: 0 <= i < j < |claims| ==> Rank(canonical, claims[i]) <= Rank(canonical, claims[j])
  }

  /** The claims of one rank, in list order. */
  function OfRank(canonical: seq<Bytes>, claims: seq<Candidate>, r: nat): (out: seq<Candidate>)
    ensures forall c :: c in out ==> Rank(canonical, c) == r
  {
    if claims == [] then []
    else if Rank(canonical, claims[0]) == r then [claims[0]] + OfRank(canonical, claims[1..], r)
    else OfRank(canonical, claims[1..], r)
  }

  lemma {:induction false} OfRankAppend(canonical: seq<Bytes>, xs: seq<Candidate>, ys: seq<Candidate>, r: nat)
    ensures OfRank(canonical, xs + ys, r) == OfRank(canonical, xs, r) + OfRank(canonical, ys, r)
  {
    if xs == [] {
      assert xs + ys == ys;
    } else {
      assert (xs + ys)[1..] == xs[1..] + ys;
      OfRankAppend(canonical, xs[1..], ys, r);
    }
  }

  lemma {:induction false} PlaceOrdered(canonical: seq<Bytes>, c: Candidate, sorted: seq<Candidate>)
    requires Ordered(canonical, sorted)
    ensures Ordered(canonical, Place(canonical, c, sorted))
    ensures forall x :: x in Place(canonical, c, sorted) ==> x == c || x in sorted
  {
    if sorted != [] && Rank(canonical, c) > Rank(canonical, sorted[0]) {
      var rest := Place(canonical, c, sorted[1..]);
      PlaceOrdered(canonical, c, sorted[1..]);
      forall i | 0 <= i < |rest| ensures Rank(canonical, sorted[0]) <= Rank(canonical, rest[i]) {
        assert rest[i] in rest;
        if rest[i] in sorted[1..] {
          var j :| 0 <= j < |sorted| - 1 && sorted[1..][j] == rest[i];
          assert sorted[j + 1] == rest[i];
        }
      }
      OrderedCons(canonical, sorted[0], rest);
    } else {
      OrderedCons(canonical, c, sorted);
    }
  }

  lemma OrderedCons(canonical: seq<Bytes>, c: Candidate, rest: seq<Candidate>)
    requires Ordered(canonical, rest)
    requires rest == [] || Rank(canonical, c) <= Rank(canonical, rest[0]) ||
             forall i :: 0 <= i < |rest| ==> Rank(canonical, c) <= Rank(canonical, rest[i])
    ensures Ordered(canonical, [c] + rest)
  {
    var all := [c] + rest;
    forall i, j | 0 <= i < j < |all| ensures Rank(canonical, all[i]) <= Rank(canonical, all[j]) {
      assert all[j] == rest[j - 1];
      if i == 0 {
        assert Rank(canonical, rest[0]) <= Rank(canonical, rest[j - 1]);
      } else {
        assert all[i] == rest[i - 1];
      }
    }
  }

  lemma {:induction false} PlaceStable(canonical: seq<Bytes>, c: Candidate, sorted: seq<Candidate>, r: nat)
    ensures OfRank(canonical, Place(canonical, c, sorted), r) == OfRank(canonical, [c] + sorted, r)
  {
    assert ([c] + sorted)[1..] == sorted;
    if sorted != [] && Rank(canonical, c) > Rank(canonical, sorted[0]) {
      var rest := sorted[1..];
      PlaceStable(canonical, c, rest, r);
      assert Place(canonical, c, sorted)[1..] == Place(canonical, c, rest);
      assert ([c] + rest)[1..] == rest;
    }
  }

  /** The sort is ordered by rank and keeps the claims of each rank, in their order. */
  lemma {:induction false} SortByRankStable(canonical: seq<Bytes>, claims: seq<Candidate>, r: nat)
    ensures Ordered(canonical, SortByRank(canonical, claims))
    ensures OfRank(canonical, SortByRank(canonical, claims), r) == OfRank(canonical, claims, r)
  {
    if claims != [] {
      var rest := SortByRank(canonical, claims[1..]);
      SortByRankStable(canonical, claims[1..], r);
      PlaceOrdered(canonical, claims[0], rest);
      PlaceStable(canonical, claims[0], rest, r);
      assert ([claims[0]] + rest)[1..] == rest;
    }
  }

  lemma {:induction false} SortIsStable(canonical: seq<Bytes>, claims: seq<Candidate>)
    ensures StablySorted(canonical, claims, SortByRank(canonical, claims))
  {
    forall r: nat ensures OfRank(canonical, SortByRank(canonical, claims), r) == OfRank(canonical, claims, r) {
      SortByRankStable(canonical, claims, r);
    }
    SortByRankStable(canonical, claims, 0);
  }

  /** `out` is what a stable sort of `claims` by rank gives. */
  ghost predicate StablySorted(canonical: seq<Bytes>, claims: seq<Candidate>, out: seq<Candidate>) {
    && Ordered(canonical, out)
    && forall r: nat :: OfRank(canonical, out, r) == OfRank(canonical, claims, r)
  }

  method SortClaimsByZSetTxOrder(codec: Codec, pageTxIds: seq<Bytes>, claims: seq<Candidate>)
      returns (r: Result<seq<Candidate>>)
    ensures r.Ok? <==> CanonicalOrder(codec, pageTxIds).Ok?
    ensures r.Ok? ==> StablySorted(CanonicalOrder(codec, pageTxIds).value, claims, r.value)
    ensures r.Ok? && Traverses(codec) && FullIds(pageTxIds) && pageTxIds != [] ==>
              FollowsWalk(codec.zset(set id | id in pageTxIds), r.value)
  {
    var canonical :- CanonicalZSetTxOrder(codec, pageTxIds);
    r := Ok(SortByRank(canonical, claims));
    SortIsStable(canonical, claims);
    if Traverses(codec) && FullIds(pageTxIds) && pageTxIds != [] {
      OrderedFollows(canonical, r.value);
      assert canonical == codec.zset(set id | id in pageTxIds);
    }
  }

  /** A claim stands before another only if its transaction comes no later in `walk`, and
      claims of transactions not in it stand last. */
  ghost predicate FollowsWalk(walk: seq<Bytes>, claims: seq<Candidate>) {
    forall i, j, q :: 0 <= i < j < |claims| && 0 <= q < |walk| && walk[q] == claims[j].wit.txId ==>
      exists p :: 0 <= p <= q && walk[p] == claims[i].wit.txId
  }

  lemma OrderedFollows(walk: seq<Bytes>, claims: seq<Candidate>)
    requires NoDuplicates(walk) && Ordered(walk, claims)
    ensures FollowsWalk(walk, claims)
  {
    forall i, j, q | 0 <= i < j < |claims| && 0 <= q < |walk| && walk[q] == claims[j].wit.txId
      ensures exists p :: 0 <= p <= q && walk[p] == claims[i].wit.txId
    {
      assert Rank(walk, claims[i]) <= Rank(walk, claims[j]);
      IndexOfAt(walk, q);
    }
  }

  /** Two ordered lists with the same claims of every rank are the same list. */
  lemma {:induction false} StableOrderUnique(canonical: seq<Bytes>, xs: seq<Candidate>, ys: seq<Candidate>)
    requires Ordered(canonical, xs) && Ordered(canonical, ys)
    requires forall r: nat :: OfRank(canonical, xs, r) == OfRank(canonical, ys, r)
    ensures xs == ys
  {
    if xs != [] { SomeOfRank(canonical, xs, ys); }
    if ys != [] { SomeOfRank(canonical, ys, xs); }
    if xs != [] {
      HeadsMatch(canonical, xs, ys);
      forall r: nat ensures OfRank(canonical, xs[1..], r) == OfRank(canonical, ys[1..], r) {
        assert OfRank(canonical, xs, r) == OfRank(canonical, ys, r);
        if r == Rank(canonical, xs[0]) {
          assert OfRank(canonical, xs[1..], r) == OfRank(canonical, xs, r)[1..];
          assert OfRank(canonical, ys[1..], r) == OfRank(canonical, ys, r)[1..];
        }
      }
      StableOrderUnique(canonical, xs[1..], ys[1..]);
      assert xs == [xs[0]] + xs[1..] && ys == [ys[0]] + ys[1..];
    }
  }

  /** The head's rank occurs in the other list, at or after its head. */
  lemma {:induction false} SomeOfRank(canonical: seq<Bytes>, xs: seq<Candidate>, ys: seq<Candidate>)
    requires xs != [] && Ordered(canonical, ys)
    requires forall r: nat :: OfRank(canonical, xs, r) == OfRank(canonical, ys, r)
    ensures ys != [] && Rank(canonical, ys[0]) <= Rank(canonical, xs[0])
  {
    var r := Rank(canonical, xs[0]);
    assert OfRank(canonical, xs, r) == OfRank(canonical, ys, r);
    LowRankAbsent(canonical, ys, r);
  }

  lemma {:induction false} LowRankAbsent(canonical: seq<Bytes>, ys: seq<Candidate>, r: nat)
    requires OfRank(canonical, ys, r) != []
    ensures ys != [] && (Ordered(canonical, ys) ==> Rank(canonical, ys[0]) <= r)
  {
    if Rank(canonical, ys[0]) != r {
      LowRankAbsent(canonical, ys[1..], r);
    }
  }

  lemma {:induction false} HeadsMatch(canonical: seq<Bytes>, xs: seq<Candidate>, ys: seq<Candidate>)
    requires xs != [] && ys != [] && Rank(canonical, xs[0]) == Rank(canonical, ys[0])
    requires forall r: nat :: OfRank(canonical, xs, r) == OfRank(canonical, ys, r)
    ensures xs[0] == ys[0]
  {
    var r := Rank(canonical, xs[0]);
    assert OfRank(canonical, xs, r)[0] == xs[0];
    assert OfRank(canonical, ys, r)[0] == ys[0];
  }

  // ----- extraction, rank by rank -----

  /** The canonical id of a transaction, as extraction reads it. */
  function IdOf(h: Hull, d: Tx): Option<Bytes> {
    h.codec.decode(d.txId)
  }

  /** Extraction from `d` succeeds, and its claims name `d`. */
  ghost predicate Extractable(h: Hull, d: Tx) {
    && IdOf(h, d).Some? && FromOutputs(h, d, d.outputs).Ok?
    && forall c :: c in FromOutputs(h, d, d.outputs).value ==> c.wit.txId == IdOf(h, d).value
  }

  ghost predicate AllExtractable(h: Hull, details: seq<Tx>) {
    forall i :: 0 <= i < |details| ==> Extractable(h, details[i])
  }

  lemma DecodableIsExtractable(h: Hull, details: seq<Tx>)
    requires RejectsWhitespace(h.codec) && Decodable(h.codec, details)
    ensures AllExtractable(h, details)
  {
    forall i | 0 <= i < |details| ensures Extractable(h, details[i]) {
      assert h.codec.decode(details[i].txId).Some?;
    }
  }

  ghost predicate DistinctIds(h: Hull, details: seq<Tx>) {
    forall i, j :: 0 <= i < j < |details| ==> IdOf(h, details[i]) != IdOf(h, details[j])
  }

  lemma {:induction false} SameRankKept(canonical: seq<Bytes>, claims: seq<Candidate>, rank: nat, r: nat)
    requires forall c :: c in claims ==> Rank(canonical, c) == rank
    ensures OfRank(canonical, claims, r) == if r == rank then claims else []
  {
    if claims != [] {
      assert claims[0] in claims && forall c :: c in claims[1..] ==> c in claims;
      SameRankKept(canonical, claims[1..], rank, r);
      assert claims == [claims[0]] + claims[1..];
    }
  }

  lemma {:induction false} FromDetailsOk(h: Hull, details: seq<Tx>)
    requires AllExtractable(h, details)
    ensures FromDetails(h, details).Ok?
    decreases |details|
  {
    if details != [] {
      FromDetailsOk(h, details[..|details| - 1]);
    }
  }

  function TxRank(h: Hull, canonical: seq<Bytes>, d: Tx): nat
    requires IdOf(h, d).Some?
  {
    IndexOf(canonical, IdOf(h, d).value)
  }

  /** The last transaction's claims extend those of the ones before it, all at its rank. */
  lemma LastOfRank(h: Hull, canonical: seq<Bytes>, details: seq<Tx>, r: nat)
    requires AllExtractable(h, details) && details != []
    ensures Extractable(h, details[|details| - 1])
    ensures FromDetails(h, details).Ok? && FromDetails(h, details[..|details| - 1]).Ok?
    ensures var front, last := details[..|details| - 1], details[|details| - 1];
            OfRank(canonical, FromDetails(h, details).value, r) ==
            OfRank(canonical, FromDetails(h, front).value, r) +
            if TxRank(h, canonical, last) == r then FromOutputs(h, last, last.outputs).value else []
  {
    var front, last := details[..|details| - 1], details[|details| - 1];
    FromDetailsOk(h, front);
    assert Extractable(h, last);
    var claims := FromOutputs(h, last, last.outputs).value;
    SameRankKept(canonical, claims, TxRank(h, canonical, last), r);
    OfRankAppend(canonical, FromDetails(h, front).value, claims, r);
  }

  lemma {:induction false} AbsentRank(h: Hull, canonical: seq<Bytes>, details: seq<Tx>, r: nat)
    requires AllExtractable(h, details)
    requires forall i :: 0 <= i < |details| ==> TxRank(h, canonical, details[i]) != r
    ensures FromDetails(h, details).Ok? && OfRank(canonical, FromDetails(h, details).value, r) == []
    decreases |details|
  {
    if details != [] {
      LastOfRank(h, canonical, details, r);
      AbsentRank(h, canonical, details[..|details| - 1], r);
    }
  }

  /** The claims of a listed rank are those of the one transaction with that id. */
  lemma {:induction false} PresentRank(h: Hull, canonical: seq<Bytes>, details: seq<Tx>, k: nat, r: nat)
    requires AllExtractable(h, details) && DistinctIds(h, details) && k < |details|
    requires Extractable(h, details[k]) && r < |canonical| && TxRank(h, canonical, details[k]) == r
    ensures FromDetails(h, details).Ok?
    ensures OfRank(canonical, FromDetails(h, details).value, r) == FromOutputs(h, details[k], details[k].outputs).value
    decreases |details|
  {
    var n := |details| - 1;
    LastOfRank(h, canonical, details, r);
    if k < n {
      PresentRank(h, canonical, details[..n], k, r);
      assert IdOf(h, details[k]) != IdOf(h, details[n]);
    } else {
      forall i | 0 <= i < n ensures TxRank(h, canonical, details[i]) != r {
        assert IdOf(h, details[i]) != IdOf(h, details[n]);
      }
      AbsentRank(h, canonical, details[..n], r);
    }
  }

  /** Transactions listed in canonical order yield claims in canonical order. */
  lemma {:induction false} AlignedOrdered(h: Hull, canonical: seq<Bytes>, details: seq<Tx>)
    requires AllExtractable(h, details) && |details| <= |canonical| && NoDuplicates(canonical)
    requires forall i :: 0 <= i < |details| ==> IdOf(h, details[i]) == Some(canonical[i])
    ensures FromDetails(h, details).Ok?
    ensures Ordered(canonical, FromDetails(h, details).value)
    ensures forall c :: c in FromDetails(h, details).value ==> Rank(canonical, c) < |details|
    decreases |details|
  {
    if details != [] {
      var n := |details| - 1;
      var last := details[n];
      AlignedOrdered(h, canonical, details[..n]);
      assert Extractable(h, last);
      IndexOfAt(canonical, n);
      OrderedAppend(canonical, FromDetails(h, details[..n]).value, FromOutputs(h, last, last.outputs).value, n);
    }
  }

  lemma OrderedAppend(canonical: seq<Bytes>, xs: seq<Candidate>, ys: seq<Candidate>, n: nat)
    requires Ordered(canonical, xs)
    requires forall c :: c in xs ==> Rank(canonical, c) < n
    requires forall c :: c in ys ==> Rank(canonical, c) == n
    ensures Ordered(canonical, xs + ys)
    ensures forall c :: c in xs + ys ==> Rank(canonical, c) <= n
  {
    forall i, j | 0 <= i < j < |xs + ys| ensures Rank(canonical, (xs + ys)[i]) <= Rank(canonical, (xs + ys)[j]) {
      assert i >= |xs| ==> ys[i - |xs|] in ys;
      assert j >= |xs| ==> ys[j - |xs|] in ys;
      assert i < |xs| ==> xs[i] in xs;
    }
  }

  lemma OneStablySorted(canonical: seq<Bytes>, claims: seq<Candidate>, sorted: seq<Candidate>)
    requires StablySorted(canonical, claims, sorted)
    ensures forall out :: StablySorted(canonical, claims, out) <==> out == sorted
  {
    forall out | StablySorted(canonical, claims, out) ensures out == sorted {
      assert forall r: nat :: OfRank(canonical, out, r) == OfRank(canonical, claims, r);
      StableOrderUnique(canonical, out, sorted);
    }
  }

  lemma CanonicalFollows(codec: Codec, ids: seq<Bytes>, canonical: seq<Bytes>, claims: seq<Candidate>)
    requires CanonicalOrder(codec, ids) == Ok(canonical) && NoDuplicates(canonical) && Ordered(canonical, claims)
    ensures FullIds(ids) && ids != [] ==> FollowsWalk(codec.zset(set id | id in ids), claims)
  {
    OrderedFollows(canonical, claims);
  }

  lemma {:induction false} AlignedIsSorted(h: Hull, pageTxIds: seq<Bytes>, details: seq<Tx>,
          canonical: seq<Bytes>, aligned: seq<Tx>)
    requires Traverses(h.codec) && RejectsWhitespace(h.codec)
    requires NoDuplicates(pageTxIds) && CanonicalOrder(h.codec, pageTxIds) == Ok(canonical)
    requires Decodable(h.codec, details) && DistinctIds(h, details)
    requires forall id :: id in pageTxIds <==> LastWith(h.codec, details, id).Some?
    requires |aligned| == |canonical|
    requires forall i :: 0 <= i < |canonical| ==> LastWith(h.codec, details, canonical[i]) == Some(aligned[i])
    ensures Alignable(h.codec, canonical, details)
    ensures FromDetails(h, details).Ok? && FromDetails(h, aligned).Ok?
    ensures StablySorted(canonical, FromDetails(h, details).value, FromDetails(h, aligned).value)
  {
    CanonicalOrderSettles(h.codec, pageTxIds);
    forall d | d in details ensures h.codec.decode(d.txId).value in canonical {
      assert LastWith(h.codec, details, h.codec.decode(d.txId).value).Some?;
    }
    AlignedRouteAgrees(h, canonical, details, aligned);
  }

  /** The two routes agree: for a block whose transactions have distinct ids, those of
      the page, extracting after alignment gives the one list that extracting in fetch
      order and then sorting stably by z-set rank gives.  `aligned` is what alignment returns. */
  lemma {:induction false} RoutesAgree(h: Hull, pageTxIds: seq<Bytes>, details: seq<Tx>, canonical: seq<Bytes>,
          aligned: seq<Tx>)
    requires Traverses(h.codec) && RejectsWhitespace(h.codec)
    requires NoDuplicates(pageTxIds) && CanonicalOrder(h.codec, pageTxIds) == Ok(canonical)
    requires Decodable(h.codec, details) && DistinctIds(h, details)
    requires forall id :: id in pageTxIds <==> LastWith(h.codec, details, id).Some?
    requires |aligned| == |canonical|
    requires forall i :: 0 <= i < |canonical| ==> LastWith(h.codec, details, canonical[i]) == Some(aligned[i])
    ensures Alignable(h.codec, canonical, details)
    ensures FromDetails(h, details).Ok?
    ensures forall out ::
              StablySorted(canonical, FromDetails(h, details).value, out) <==> FromDetails(h, aligned) == Ok(out)
    ensures FullIds(pageTxIds) && pageTxIds != [] && FromDetails(h, aligned).Ok? ==>
              FollowsWalk(h.codec.zset(set id | id in pageTxIds), FromDetails(h, aligned).value)
  {
    AlignedIsSorted(h, pageTxIds, details, canonical, aligned);
    var sorted := FromDetails(h, aligned).value;
    OneStablySorted(canonical, FromDetails(h, details).value, sorted);
    CanonicalOrderSettles(h.codec, pageTxIds);
    CanonicalFollows(h.codec, pageTxIds, canonical, sorted);
  }

  lemma {:induction false} AlignedAreDetails(h: Hull, canonical: seq<Bytes>, details: seq<Tx>, aligned: seq<Tx>)
    requires AllExtractable(h, details) && |aligned| == |canonical|
    requires forall i :: 0 <= i < |canonical| ==> LastWith(h.codec, details, canonical[i]) == Some(aligned[i])
    ensures forall i :: 0 <= i < |aligned| ==> aligned[i] in details && IdOf(h, aligned[i]) == Some(canonical[i])
    ensures AllExtractable(h, aligned)
  {
    forall i | 0 <= i < |aligned|
      ensures aligned[i] in details && IdOf(h, aligned[i]) == Some(canonical[i])
    {
      assert LastWith(h.codec, details, canonical[i]) == Some(aligned[i]);
    }
  }

  lemma {:induction false} AlignedRouteAgrees(h: Hull, canonical: seq<Bytes>, details: seq<Tx>, aligned: seq<Tx>)
    requires RejectsWhitespace(h.codec) && DistinctIds(h, details)
    requires Alignable(h.codec, canonical, details)
    requires |aligned| == |canonical|
    requires forall i :: 0 <= i < |canonical| ==> LastWith(h.codec, details, canonical[i]) == Some(aligned[i])
    ensures FromDetails(h, details).Ok?
    ensures FromDetails(h, aligned).Ok?
    ensures StablySorted(canonical, FromDetails(h, details).value, FromDetails(h, aligned).value)
  {
    DecodableIsExtractable(h, details);
    AlignedAreDetails(h, canonical, details, aligned);
    AlignedOrdered(h, canonical, aligned);
    FromDetailsOk(h, details);
    forall r: nat
      ensures OfRank(canonical, FromDetails(h, aligned).value, r) == OfRank(canonical, FromDetails(h, details).value, r)
    {
      SameClaimsOfRank(h, canonical, details, aligned, r);
    }
  }

  lemma {:induction false} SameClaimsOfRank(h: Hull, canonical: seq<Bytes>, details: seq<Tx>, aligned: seq<Tx>, r: nat)
    requires AllExtractable(h, details) && DistinctIds(h, details)
    requires AllExtractable(h, aligned) && |aligned| == |canonical|
    requires NoDuplicates(canonical)
    requires forall i :: 0 <= i < |details| ==> IdOf(h, details[i]).Some? && IdOf(h, details[i]).value in canonical
    requires forall i :: 0 <= i < |aligned| ==> aligned[i] in details && IdOf(h, aligned[i]) == Some(canonical[i])
    ensures FromDetails(h, details).Ok? && FromDetails(h, aligned).Ok?
    ensures OfRank(canonical, FromDetails(h, aligned).value, r) == OfRank(canonical, FromDetails(h, details).value, r)
  {
    if r < |canonical| {
      IndexOfAt(canonical, r);
      var k :| 0 <= k < |details| && details[k] == aligned[r];
      PresentRank(h, canonical, details, k, r);
      PresentRank(h, canonical, aligned, r, r);
    } else {
      AbsentRank(h, canonical, details, r);
      AbsentRank(h, canonical, aligned, r);
    }
  }

  lemma {:induction false} IndexOfAt(canonical: seq<Bytes>, r: nat)
    requires r < |canonical| && NoDuplicates(canonical)
    ensures IndexOf(canonical, canonical[r]) == r
  {
    var i := IndexOf(canonical, canonical[r]);
    assert canonical[r] in canonical;
    assert i < |canonical| && canonical[i] == canonical[r];
  }
}
