/** Claim extraction from fetched transactions (`chain_follower.rs`, `payment.rs`), and
    what it means to the kernel's claim predicate. */
module Extraction {
  import opened Prelude
  import opened LittleEndian
  import opened Text
  import opened Predicates
  import opened Chain

  datatype Note = Note(name: string, owner: string, txHash: string)

  /** The hull's foreign code: base58 and z-sets, claim-note decoding, lock decoding. */
  datatype Hull = Hull(codec: Codec, claimNote: NoteData -> Option<Note>, treasuryLock: NoteData -> bool)

  datatype HullWitness = HullWitness(txId: Bytes, spenderPkh: Bytes, treasuryAmount: nat, outputLockRoot: string)

  datatype Candidate = Candidate(name: string, owner: string, fee: nat, txHash: Bytes, wit: HullWitness)

  // ----- payment -----

  const U64_MAX: nat := 0xffff_ffff_ffff_ffff

  function SaturatingAdd(a: nat, b: nat): nat {
    if a + b > U64_MAX then U64_MAX else a + b
  }

  predicate PaysTreasury(h: Hull, out: Output) {
    (out.noteData.Some? && h.treasuryLock(out.noteData.value)) || out.noteName == TREASURY_LOCK_ROOT
  }

  /** The amounts a transaction pays the treasury. */
  function TreasuryAmounts(h: Hull, outs: seq<Output>): seq<nat> {
    if outs == [] then []
    else
      var rest := TreasuryAmounts(h, outs[1..]);
      if PaysTreasury(h, outs[0]) && outs[0].amount.Some? then [outs[0].amount.value] + rest else rest
  }

  function SaturatingSum(start: nat, amounts: seq<nat>): nat
    decreases amounts
  {
    if amounts == [] then start else SaturatingSum(SaturatingAdd(start, amounts[0]), amounts[1..])
  }

  function Sum(amounts: seq<nat>): nat {
    if amounts == [] then 0 else amounts[0] + Sum(amounts[1..])
  }

  /** The saturating fold is the true sum, capped once at the end. */
  lemma {:induction false} SaturatingSumCaps(start: nat, amounts: seq<nat>)
    requires start <= U64_MAX
    ensures SaturatingSum(start, amounts) == SaturatingAdd(start, Sum(amounts))
    decreases amounts
  {
    if amounts != [] {
      SaturatingSumCaps(SaturatingAdd(start, amounts[0]), amounts[1..]);
    }
  }

  /** An output that counts as payment: locked to the treasury, or named after it, and with
      an amount. */
  ghost predicate Funds(h: Hull, out: Output) {
    && ((out.noteData.Some? && h.treasuryLock(out.noteData.value)) || out.noteName == TREASURY_LOCK_ROOT)
    && out.amount.Some?
  }

  /** `totals[o]` is what the outputs before `o` pay the treasury. */
  ghost predicate RunningTotals(h: Hull, outs: seq<Output>, totals: seq<nat>) {
    && |totals| == |outs| + 1 && totals[0] == 0
    && forall o :: 0 <= o < |outs| ==>
         totals[o + 1] == if Funds(h, outs[o]) then totals[o] + outs[o].amount.value else totals[o]
  }

  /** The outputs pay the treasury `total` in all. */
  ghost predicate PaysInAll(h: Hull, outs: seq<Output>, total: nat) {
    exists totals :: RunningTotals(h, outs, totals) && totals[|outs|] == total
  }

  lemma {:induction false} AmountsAppend(h: Hull, outs: seq<Output>, out: Output)
    ensures TreasuryAmounts(h, outs + [out]) ==
            TreasuryAmounts(h, outs) + if Funds(h, out) then [out.amount.value] else []
  {
    if outs == [] {
      assert [out][1..] == [];
    } else {
      assert (outs + [out])[1..] == outs[1..] + [out];
      AmountsAppend(h, outs[1..], out);
    }
  }

  lemma {:induction false} SumAppend(amounts: seq<nat>, x: nat)
    ensures Sum(amounts + [x]) == Sum(amounts) + x
  {
    if amounts == [] {
      assert [x][1..] == [];
    } else {
      assert (amounts + [x])[1..] == amounts[1..] + [x];
      SumAppend(amounts[1..], x);
    }
  }

  lemma {:induction false} TotalsOf(h: Hull, outs: seq<Output>, totals: seq<nat>, o: nat)
    requires RunningTotals(h, outs, totals) && o <= |outs|
    ensures totals[o] == Sum(TreasuryAmounts(h, outs[..o]))
  {
    if o > 0 {
      TotalsOf(h, outs, totals, o - 1);
      assert outs[..o] == outs[..o - 1] + [outs[o - 1]];
      AmountsAppend(h, outs[..o - 1], outs[o - 1]);
      if Funds(h, outs[o - 1]) {
        SumAppend(TreasuryAmounts(h, outs[..o - 1]), outs[o - 1].amount.value);
      } else {
        assert TreasuryAmounts(h, outs[..o - 1]) + [] == TreasuryAmounts(h, outs[..o - 1]);
      }
    }
  }

  /** What is summed is what the outputs pay, in all and once each. */
  lemma {:induction false} TotalPaid(h: Hull, outs: seq<Output>, total: nat)
    ensures PaysInAll(h, outs, total) <==> total == Sum(TreasuryAmounts(h, outs))
  {
    assert outs[..|outs|] == outs;
    forall totals | RunningTotals(h, outs, totals) ensures totals[|outs|] == Sum(TreasuryAmounts(h, outs)) {
      TotalsOf(h, outs, totals, |outs|);
    }
    var totals := TotalsFor(h, outs);
    assert RunningTotals(h, outs, totals);
  }

  lemma TotalsFor(h: Hull, outs: seq<Output>) returns (totals: seq<nat>)
    ensures RunningTotals(h, outs, totals)
  {
    if outs == [] {
      totals := [0];
    } else {
      var n := |outs| - 1;
      var front := TotalsFor(h, outs[..n]);
      totals := front + [if Funds(h, outs[n]) then front[n] + outs[n].amount.value else front[n]];
      assert forall o :: 0 <= o < n ==> outs[..n][o] == outs[o];
    }
  }

  /** The witness amount for a total: u64 arithmetic saturates. */
  ghost predicate Witnessed(h: Hull, d: Tx, amount: nat) {
    exists total: nat :: PaysInAll(h, d.outputs, total) && amount == if total > U64_MAX then U64_MAX else total
  }

  function SumTreasury(h: Hull, d: Tx): (r: nat)
    ensures forall amount: nat :: Witnessed(h, d, amount) <==> amount == r
  {
    SumIsWitnessed(h, d);
    SaturatingSum(0, TreasuryAmounts(h, d.outputs))
  }

  lemma {:induction false} SumIsWitnessed(h: Hull, d: Tx)
    ensures forall amount: nat :: Witnessed(h, d, amount) <==> amount == SaturatingSum(0, TreasuryAmounts(h, d.outputs))
  {
    var sum := Sum(TreasuryAmounts(h, d.outputs));
    SaturatingSumCaps(0, TreasuryAmounts(h, d.outputs));
    TotalPaid(h, d.outputs, sum);
    forall total: nat ensures PaysInAll(h, d.outputs, total) <==> total == sum {
      TotalPaid(h, d.outputs, total);
    }
  }

  // ----- owners and witnesses -----

  function AllSigners(inputs: seq<Input>): seq<string> {
    if inputs == [] then [] else inputs[0].signers + AllSigners(inputs[1..])
  }

  function NoteNames(inputs: seq<Input>): seq<string> {
    if inputs == [] then [] else [inputs[0].noteName] + NoteNames(inputs[1..])
  }

  /** Trimmed, without the empty ones. */
  function Cleaned(names: seq<string>): (r: seq<string>)
    ensures forall s :: s in r ==> Trim(s) == s && s != ""
  {
    if names == [] then []
    else
      TrimIdempotent(names[0]);
      var rest := Cleaned(names[1..]);
      if Trim(names[0]) == "" then rest else [Trim(names[0])] + rest
  }

  /** The one element of a list, when all its elements are the same. */
  function Sole(names: seq<string>): Option<string> {
    if names != [] && forall s | s in names :: s == names[0] then Some(names[0]) else None
  }

  function InferOwner(d: Tx, note: Note): (r: Option<string>)
    ensures r.Some? ==> Trim(r.value) == r.value && r.value != ""
  {
    TrimIdempotent(note.owner);
    var signers := Cleaned(AllSigners(d.inputs));
    if Trim(note.owner) != "" then Some(Trim(note.owner))
    else if signers != [] then Sole(signers)
    else Sole(Cleaned(NoteNames(d.inputs)))
  }

  /** Some name trims to `o`, and no other but blanks do not. */
  ghost predicate Only(names: seq<string>, o: string) {
    o != "" && (exists s :: s in names && Trim(s) == o) && forall s :: s in names ==> Trim(s) == "" || Trim(s) == o
  }

  ghost predicate AllBlank(names: seq<string>) {
    forall s :: s in names ==> Trim(s) == ""
  }

  lemma {:induction false} CleanedMeans(names: seq<string>, o: string)
    ensures o in Cleaned(names) <==> o != "" && exists s :: s in names && Trim(s) == o
  {
    if names != [] {
      CleanedMeans(names[1..], o);
      assert names == [names[0]] + names[1..];
    }
  }

  lemma {:induction false} SoleMeans(names: seq<string>, o: string)
    ensures Cleaned(names) == [] <==> AllBlank(names)
    ensures Sole(Cleaned(names)) == Some(o) <==> Only(names, o)
  {
    var cleaned := Cleaned(names);
    forall s ensures s in cleaned <==> s != "" && exists t :: t in names && Trim(t) == s {
      CleanedMeans(names, s);
    }
    if cleaned != [] { assert cleaned[0] in cleaned; }
    forall s | s in names ensures Trim(s) == "" || Trim(s) in cleaned { }
  }

  /** Who a claim is for: the owner its note names; else, if any input is signed, the only
      signer; else the only name among the spent notes. */
  ghost predicate OwnerOf(d: Tx, note: Note, o: string) {
    if Trim(note.owner) != "" then o == Trim(note.owner)
    else Only(AllSigners(d.inputs), o) || (AllBlank(AllSigners(d.inputs)) && Only(NoteNames(d.inputs), o))
  }

  lemma InferOwnerMeans(d: Tx, note: Note, o: string)
    ensures InferOwner(d, note) == Some(o) <==> OwnerOf(d, note, o)
  {
    SoleMeans(AllSigners(d.inputs), o);
    SoleMeans(NoteNames(d.inputs), o);
  }

  /** `owner` signed some input of `d`; or none is signed and some spent note has its name. */
  ghost predicate SpentBy(d: Tx, owner: string) {
    if exists i :: 0 <= i < |d.inputs| && d.inputs[i].signers != []
    then exists i :: 0 <= i < |d.inputs| && owner in d.inputs[i].signers
    else exists i :: 0 <= i < |d.inputs| && Trim(d.inputs[i].noteName) == owner
  }

  lemma {:induction false} InputsMean(inputs: seq<Input>, s: string)
    ensures s in AllSigners(inputs) <==> exists i :: 0 <= i < |inputs| && s in inputs[i].signers
    ensures s in NoteNames(inputs) <==> exists i :: 0 <= i < |inputs| && inputs[i].noteName == s
    ensures AllSigners(inputs) == [] <==> forall i :: 0 <= i < |inputs| ==> inputs[i].signers == []
  {
    if inputs != [] {
      InputsMean(inputs[1..], s);
      assert inputs == [inputs[0]] + inputs[1..];
    }
  }

  lemma SpentByMeans(d: Tx, own: string)
    ensures var signers := AllSigners(d.inputs);
            SpentBy(d, own) <==>
            if signers == [] then exists s :: s in NoteNames(d.inputs) && Trim(s) == own else own in signers
  {
    InputsMean(d.inputs, own);
    forall s ensures s in NoteNames(d.inputs) <==> exists i :: 0 <= i < |d.inputs| && d.inputs[i].noteName == s {
      InputsMean(d.inputs, s);
    }
    forall i | 0 <= i < |d.inputs| ensures d.inputs[i].noteName in NoteNames(d.inputs) { }
  }

  /** Only for an owner who spent the transaction. */
  function WitnessFor(h: Hull, d: Tx, txHash: Bytes, owner: string): (r: Option<HullWitness>)
    ensures r.Some? <==> Trim(owner) != "" && SpentBy(d, Trim(owner))
  {
    SpentByMeans(d, Trim(owner));
    var own, signers := Trim(owner), AllSigners(d.inputs);
    var ownerOk := if signers == [] then exists s | s in NoteNames(d.inputs) :: Trim(s) == own else own in signers;
    if own == "" || !ownerOk then None
    else Some(HullWitness(txHash, Utf8(own), SumTreasury(h, d), TREASURY_LOCK_ROOT))
  }

  // ----- extraction -----

  /** The claim an output carries, if any; `Err` when its transaction id does not decode. */
  function FromOutput(h: Hull, d: Tx, out: Output): Result<Option<Candidate>> {
    if out.noteData.None? || h.claimNote(out.noteData.value).None? then Ok(None)
    else
      var note := h.claimNote(out.noteData.value).value;
      var expected, noteTx := Trim(d.txId), Trim(note.txHash);
      if noteTx != "" && noteTx != expected then Ok(None)
      else
        var atom := h.codec.decode(expected);
        if atom.None? then Err
        else
          var owner := InferOwner(d, note);
          if owner.None? then Ok(None)
          else
            var wit := WitnessFor(h, d, atom.value, owner.value);
            if wit.None? then Ok(None)
            else Ok(Some(Candidate(note.name, owner.value, HullFee(note.name), atom.value, wit.value)))
  }

  /** What extraction guarantees of a claim of `d`. */
  ghost predicate Grounded(h: Hull, d: Tx, c: Candidate) {
    && h.codec.decode(Trim(d.txId)) == Some(c.txHash)
    && c.owner != "" && SpentBy(d, c.owner)
    && c.wit.txId == c.txHash
    && c.wit.spenderPkh == Utf8(c.owner)
    && c.fee == HullFee(c.name)
    && Witnessed(h, d, c.wit.treasuryAmount)
    && c.wit.outputLockRoot == TREASURY_LOCK_ROOT
  }

  /** `out` holds a claim note, for no transaction in particular or for `d`. */
  predicate Notes(h: Hull, d: Tx, out: Output) {
    out.noteData.Some? && h.claimNote(out.noteData.value).Some? &&
    var noteTx := Trim(h.claimNote(out.noteData.value).value.txHash);
    noteTx == "" || noteTx == Trim(d.txId)
  }

  /** `c` is the claim that output `out` of `d` makes. */
  ghost predicate IsClaim(h: Hull, d: Tx, out: Output, c: Candidate) {
    Notes(h, d, out) &&
    var note := h.claimNote(out.noteData.value).value;
    c.name == note.name && OwnerOf(d, note, c.owner) && Grounded(h, d, c)
  }

  lemma OutputMeans(h: Hull, d: Tx, out: Output, c: Candidate)
    ensures FromOutput(h, d, out) == Ok(Some(c)) <==> IsClaim(h, d, out, c)
  {
    if Notes(h, d, out) {
      var note := h.claimNote(out.noteData.value).value;
      InferOwnerMeans(d, note, c.owner);
      var owner := InferOwner(d, note);
      if owner.Some? { InferOwnerMeans(d, note, owner.value); }
    }
  }

  lemma OneClaimEach(h: Hull, d: Tx, out: Output, c: Candidate, c': Candidate)
    requires IsClaim(h, d, out, c) && IsClaim(h, d, out, c')
    ensures c == c'
  {
    OutputMeans(h, d, out, c);
    OutputMeans(h, d, out, c');
  }

  /** The claims of the first outputs of a transaction, in order. */
  function FromOutputs(h: Hull, d: Tx, outs: seq<Output>): (r: Result<seq<Candidate>>)
    ensures r.Ok? ==> forall c :: c in r.value ==> Grounded(h, d, c)
    ensures h.codec.decode(Trim(d.txId)).Some? ==> r.Ok?
  {
    if outs == [] then Ok([])
    else
      var front :- FromOutputs(h, d, outs[..|outs| - 1]);
      var last :- FromOutput(h, d, outs[|outs| - 1]);
      Ok(if last.Some? then front + [last.value] else front)
  }

  function FromDetails(h: Hull, details: seq<Tx>): Result<seq<Candidate>> {
    if details == [] then Ok([])
    else
      var last := details[|details| - 1];
      var front :- FromDetails(h, details[..|details| - 1]);
      var claims :- FromOutputs(h, last, last.outputs);
      Ok(front + claims)
  }

  // ----- what extraction finds -----

  /** `claims` are all the claims the outputs make, each once and in their order: `at`
      says which output each comes from. */
  ghost predicate OutputClaims(h: Hull, d: Tx, outs: seq<Output>, claims: seq<Candidate>, at: seq<nat>) {
    OutputsMatch(h, d, outs, claims, at) && Increasing(at) && AllFound(h, d, outs, at)
  }

  ghost predicate OutputsMatch(h: Hull, d: Tx, outs: seq<Output>, claims: seq<Candidate>, at: seq<nat>) {
    |at| == |claims| && forall i :: 0 <= i < |at| ==> at[i] < |outs| && IsClaim(h, d, outs[at[i]], claims[i])
  }

  predicate Increasing(at: seq<nat>) {
    forall i, j :: 0 <= i < j < |at| ==> at[i] < at[j]
  }

  ghost predicate AllFound(h: Hull, d: Tx, outs: seq<Output>, at: seq<nat>) {
    forall o: nat :: o < |outs| && MakesClaim(h, d, outs[o]) ==> o in at
  }

  ghost predicate MakesClaim(h: Hull, d: Tx, out: Output) {
    exists c :: IsClaim(h, d, out, c)
  }

  lemma OutputsExact(h: Hull, d: Tx, outs: seq<Output>) returns (at: seq<nat>)
    requires FromOutputs(h, d, outs).Ok?
    ensures OutputClaims(h, d, outs, FromOutputs(h, d, outs).value, at)
    decreases |outs|
  {
    if outs == [] {
      at := [];
    } else {
      var n := |outs| - 1;
      var front := OutputsExact(h, d, outs[..n]);
      var last := FromOutput(h, d, outs[n]).value;
      at := if last.Some? then front + [n] else front;
      forall c ensures IsClaim(h, d, outs[n], c) <==> last == Some(c) {
        OutputMeans(h, d, outs[n], c);
      }
      FoundAppend(h, d, outs, front, at);
      OutputsMatchAppend(h, d, outs, FromOutputs(h, d, outs[..n]).value, front, last);
    }
  }

  lemma OutputsMatchAppend(h: Hull, d: Tx, outs: seq<Output>, claims: seq<Candidate>, front: seq<nat>,
          last: Option<Candidate>)
    requires outs != [] && OutputsMatch(h, d, outs[..|outs| - 1], claims, front) && Increasing(front)
    requires last.Some? ==> IsClaim(h, d, outs[|outs| - 1], last.value)
    ensures last.None? ==> OutputsMatch(h, d, outs, claims, front)
    ensures last.Some? ==>
              OutputsMatch(h, d, outs, claims + [last.value], front + [|outs| - 1]) && Increasing(front + [|outs| - 1])
  {
    var n := |outs| - 1;
    forall i | 0 <= i < |front| ensures front[i] < n && IsClaim(h, d, outs[front[i]], claims[i]) {
      assert outs[..n][front[i]] == outs[front[i]];
    }
  }

  lemma FoundAppend(h: Hull, d: Tx, outs: seq<Output>, front: seq<nat>, at: seq<nat>)
    requires outs != [] && AllFound(h, d, outs[..|outs| - 1], front)
    requires at == front + [|outs| - 1] || (at == front && !MakesClaim(h, d, outs[|outs| - 1]))
    ensures AllFound(h, d, outs, at)
  {
    var n := |outs| - 1;
    forall o: nat | o < |outs| && MakesClaim(h, d, outs[o]) ensures o in at {
      if o < n {
        assert outs[..n][o] == outs[o];
        assert o in front;
      } else if at != front {
        assert at[|front|] == n;
      }
    }
  }

  /** Extraction from a transaction fails exactly when one of its outputs holds a claim
      note for it and its id does not decode. */
  lemma {:induction false} OutputsFail(h: Hull, d: Tx, outs: seq<Output>)
    ensures FromOutputs(h, d, outs).Err? <==>
            h.codec.decode(Trim(d.txId)).None? && exists o :: 0 <= o < |outs| && Notes(h, d, outs[o])
    decreases |outs|
  {
    if outs != [] {
      var n := |outs| - 1;
      OutputsFail(h, d, outs[..n]);
      assert forall o :: 0 <= o < n ==> outs[..n][o] == outs[o];
    }
  }

  /** A transaction of a block, and one of its outputs. */
  datatype Place = Place(tx: nat, output: nat)

  ghost predicate Before(p: Place, q: Place) {
    p.tx < q.tx || (p.tx == q.tx && p.output < q.output)
  }

  ghost predicate ClaimAt(h: Hull, details: seq<Tx>, p: Place, c: Candidate) {
    && p.tx < |details| && p.output < |details[p.tx].outputs|
    && IsClaim(h, details[p.tx], details[p.tx].outputs[p.output], c)
  }

  ghost predicate PlacesMatch(h: Hull, details: seq<Tx>, claims: seq<Candidate>, at: seq<Place>) {
    |at| == |claims| && forall i :: 0 <= i < |at| ==> ClaimAt(h, details, at[i], claims[i])
  }

  ghost predicate InOrder(at: seq<Place>) {
    forall i, j :: 0 <= i < j < |at| ==> Before(at[i], at[j])
  }

  ghost predicate Finds(h: Hull, details: seq<Tx>, at: seq<Place>) {
    forall p, c :: ClaimAt(h, details, p, c) ==> p in at
  }

  /** `claims` are all the claims of a list of transactions, each once and in the order of
      the transactions and their outputs: `at` says where each comes from. */
  ghost predicate Located(h: Hull, details: seq<Tx>, claims: seq<Candidate>, at: seq<Place>) {
    PlacesMatch(h, details, claims, at) && InOrder(at) && Finds(h, details, at)
  }

  /** Some output holds a claim note for its transaction, whose id does not decode. */
  ghost predicate Undecodable(h: Hull, d: Tx) {
    h.codec.decode(Trim(d.txId)).None? && exists o :: 0 <= o < |d.outputs| && Notes(h, d, d.outputs[o])
  }

  /** Extraction finds exactly the claims that the outputs make, in order. */
  lemma DetailsExact(h: Hull, details: seq<Tx>) returns (at: seq<Place>)
    requires FromDetails(h, details).Ok?
    ensures Located(h, details, FromDetails(h, details).value, at)
    decreases |details|
  {
    if details == [] {
      at := [];
    } else {
      var n := |details| - 1;
      var last := details[n];
      var front := DetailsExact(h, details[..n]);
      var outs := OutputsExact(h, last, last.outputs);
      at := front + Within(n, outs);
      LocatedAppend(h, details, FromDetails(h, details[..n]).value, front,
                    FromOutputs(h, last, last.outputs).value, outs);
    }
  }

  /** The places of some outputs of transaction `t`. */
  function Within(t: nat, outs: seq<nat>): (r: seq<Place>)
    ensures |r| == |outs| && forall i :: 0 <= i < |outs| ==> r[i] == Place(t, outs[i])
  {
    seq(|outs|, i requires 0 <= i < |outs| => Place(t, outs[i]))
  }

  lemma LocatedAppend(h: Hull, details: seq<Tx>, claims: seq<Candidate>, front: seq<Place>, more: seq<Candidate>,
          outs: seq<nat>)
    requires details != [] && Located(h, details[..|details| - 1], claims, front)
    requires var last := details[|details| - 1]; OutputClaims(h, last, last.outputs, more, outs)
    ensures Located(h, details, claims + more, front + Within(|details| - 1, outs))
  {
    MatchAppend(h, details, claims, front, more, outs);
    OrderAppend(|details| - 1, front, outs);
    FindsAppend(h, details, front, outs);
  }

  lemma MatchAppend(h: Hull, details: seq<Tx>, claims: seq<Candidate>, front: seq<Place>, more: seq<Candidate>,
          outs: seq<nat>)
    requires details != [] && PlacesMatch(h, details[..|details| - 1], claims, front)
    requires var last := details[|details| - 1]; OutputClaims(h, last, last.outputs, more, outs)
    ensures PlacesMatch(h, details, claims + more, front + Within(|details| - 1, outs))
    ensures forall p :: p in front ==> p.tx < |details| - 1
  {
    FrontMatches(h, details, claims, front);
    LastMatches(h, details, more, outs);
    MatchConcat(h, details, claims, front, more, Within(|details| - 1, outs));
  }

  lemma FrontMatches(h: Hull, details: seq<Tx>, claims: seq<Candidate>, front: seq<Place>)
    requires details != [] && PlacesMatch(h, details[..|details| - 1], claims, front)
    ensures PlacesMatch(h, details, claims, front) && forall p :: p in front ==> p.tx < |details| - 1
  {
    var n := |details| - 1;
    forall i | 0 <= i < |front| ensures front[i].tx < n && ClaimAt(h, details, front[i], claims[i]) {
      assert ClaimAt(h, details[..n], front[i], claims[i]);
    }
  }

  lemma LastMatches(h: Hull, details: seq<Tx>, more: seq<Candidate>, outs: seq<nat>)
    requires details != []
    requires var last := details[|details| - 1]; OutputsMatch(h, last, last.outputs, more, outs)
    ensures PlacesMatch(h, details, more, Within(|details| - 1, outs))
  {
  }

  lemma MatchConcat(h: Hull, details: seq<Tx>, claims: seq<Candidate>, front: seq<Place>, more: seq<Candidate>,
          back: seq<Place>)
    requires PlacesMatch(h, details, claims, front) && PlacesMatch(h, details, more, back)
    ensures PlacesMatch(h, details, claims + more, front + back)
  {
  }

  lemma OrderAppend(t: nat, front: seq<Place>, outs: seq<nat>)
    requires InOrder(front) && forall p :: p in front ==> p.tx < t
    requires Increasing(outs)
    ensures InOrder(front + Within(t, outs))
  {
    var at := front + Within(t, outs);
    forall i, j | 0 <= i < j < |at| ensures Before(at[i], at[j]) {
      if i < |front| <= j { assert front[i] in front; }
    }
  }

  lemma FindsAppend(h: Hull, details: seq<Tx>, front: seq<Place>, outs: seq<nat>)
    requires details != [] && Finds(h, details[..|details| - 1], front)
    requires var last := details[|details| - 1]; AllFound(h, last, last.outputs, outs)
    ensures Finds(h, details, front + Within(|details| - 1, outs))
  {
    var n := |details| - 1;
    var at := front + Within(n, outs);
    forall p, c | ClaimAt(h, details, p, c) ensures p in at {
      if p.tx < n {
        assert ClaimAt(h, details[..n], p, c);
        assert p in front;
      } else {
        assert MakesClaim(h, details[n], details[n].outputs[p.output]);
        var k :| 0 <= k < |outs| && outs[k] == p.output;
        assert at[|front| + k] == p;
      }
    }
  }

  lemma {:induction false} DetailsFail(h: Hull, details: seq<Tx>)
    ensures FromDetails(h, details).Err? <==> exists t :: 0 <= t < |details| && Undecodable(h, details[t])
    decreases |details|
  {
    if details != [] {
      var n := |details| - 1;
      DetailsFail(h, details[..n]);
      OutputsFail(h, details[n], details[n].outputs);
      SomeUndecodable(h, details);
    }
  }

  lemma SomeUndecodable(h: Hull, details: seq<Tx>)
    requires details != []
    ensures var n := |details| - 1;
            (exists t :: 0 <= t < |details| && Undecodable(h, details[t])) <==>
            Undecodable(h, details[n]) || exists t :: 0 <= t < n && Undecodable(h, details[..n][t])
  {
    var n := |details| - 1;
    assert forall t :: 0 <= t < n ==> details[..n][t] == details[t];
  }

  method ExtractFromTransaction(h: Hull, d: Tx) returns (r: Result<seq<Candidate>>)
    ensures r == FromOutputs(h, d, d.outputs)
    ensures r.Ok? ==> exists at :: OutputClaims(h, d, d.outputs, r.value, at)
    ensures r.Err? <==> Undecodable(h, d)
  {
    var claims: seq<Candidate> := [];
    OutputsFail(h, d, d.outputs);
    for i := 0 to |d.outputs|
      invariant FromOutputs(h, d, d.outputs[..i]) == Ok(claims)
    {
      assert d.outputs[..i + 1][..i] == d.outputs[..i];
      var claim := FromOutput(h, d, d.outputs[i]);
      if claim.Err? {
        FromOutputsFails(h, d, d.outputs, i + 1);
        return Err;
      }
      if claim.value.Some? {
        claims := claims + [claim.value.value];
      }
    }
    assert d.outputs[..|d.outputs|] == d.outputs;
    ghost var at := OutputsExact(h, d, d.outputs);
    r := Ok(claims);
  }

  lemma {:induction false} FromOutputsFails(h: Hull, d: Tx, outs: seq<Output>, i: nat)
    requires i <= |outs| && FromOutputs(h, d, outs[..i]).Err?
    ensures FromOutputs(h, d, outs).Err?
    decreases |outs|
  {
    if i < |outs| {
      assert outs[..|outs| - 1][..i] == outs[..i];
      FromOutputsFails(h, d, outs[..|outs| - 1], i);
    } else {
      assert outs[..i] == outs;
    }
  }

  method ExtractClaims(h: Hull, details: seq<Tx>) returns (r: Result<seq<Candidate>>)
    ensures r == FromDetails(h, details)
    ensures r.Ok? ==> exists at :: Located(h, details, r.value, at)
    ensures r.Err? <==> exists t :: 0 <= t < |details| && Undecodable(h, details[t])
  {
    var claims: seq<Candidate> := [];
    DetailsFail(h, details);
    for i := 0 to |details|
      invariant FromDetails(h, details[..i]) == Ok(claims)
    {
      assert details[..i + 1][..i] == details[..i];
      var more := ExtractFromTransaction(h, details[i]);
      if more.Err? {
        return Err;
      }
      claims := claims + more.value;
    }
    assert details[..|details|] == details;
    ghost var at := DetailsExact(h, details);
    r := Ok(claims);
  }

  // ----- what the kernel makes of an extracted claim -----

  function Atoms(ids: seq<Bytes>): (r: seq<nat>)
    ensures |r| == |ids| && forall i :: 0 <= i < |ids| ==> r[i] == Value(ids[i], 256)
  {
    seq(|ids|, i requires 0 <= i < |ids| => Value(ids[i], 256))
  }

  /** The claim as the poke carries it. */
  function KernelClaim(c: Candidate): Claim {
    Claim(Cord(c.name), Cord(c.owner), c.fee, Value(c.txHash, 256),
          Witness(Value(c.wit.txId, 256), Value(c.wit.spenderPkh, 256), c.wit.treasuryAmount, c.wit.outputLockRoot))
  }

  /** Base58 has no whitespace digits. */
  ghost predicate RejectsWhitespace(codec: Codec) {
    forall s :: codec.decode(s).Some? ==> Trim(s) == s
  }

  /** A block as alignment leaves it: every detail is of a listed transaction, and if the
      page has 40-byte ids, the details stand in the order of its z-set traversal. */
  ghost predicate AlignedBlock(codec: Codec, b: Fetch) {
    && Decodable(codec, b.details)
    && (forall d :: d in b.details ==> codec.decode(d.txId).value in b.pageTxIds)
    && (FullIds(b.pageTxIds) && b.pageTxIds != [] ==>
          var walk := codec.zset(set id | id in b.pageTxIds);
          |b.details| == |walk| && forall t :: 0 <= t < |walk| ==> codec.decode(b.details[t].txId) == Some(walk[t]))
  }

  /** Which is what the hull's alignment makes of the page and the fetched transactions. */
  lemma AlignmentAligns(codec: Codec, b: Fetch, canonical: seq<Bytes>, details: seq<Tx>)
    requires Traverses(codec) && NoDuplicates(b.pageTxIds) && CanonicalOrder(codec, b.pageTxIds) == Ok(canonical)
    requires |b.details| == |canonical|
    requires forall i :: 0 <= i < |canonical| ==> LastWith(codec, details, canonical[i]) == Some(b.details[i])
    ensures AlignedBlock(codec, b)
  {
    CanonicalOrderSettles(codec, b.pageTxIds);
    forall t | 0 <= t < |canonical| ensures codec.decode(b.details[t].txId) == Some(canonical[t]) {
      assert LastWith(codec, details, canonical[t]) == Some(b.details[t]);
    }
    forall d | d in b.details ensures codec.decode(d.txId).Some? && codec.decode(d.txId).value in b.pageTxIds {
      var t :| 0 <= t < |b.details| && b.details[t] == d;
      assert canonical[t] in canonical;
    }
  }

  /** The page the kernel is given lists the block's transactions. */
  ghost predicate Lists(page: Page, b: Fetch) {
    forall id :: id in b.pageTxIds ==> Value(id, 256) in page.txIds
  }

  /** A name the kernel can accept from the hull: once the trailing NULs are off it is
      well formed but for NULs, and they did not make the hull ask too small a fee. */
  ghost predicate Registrable(name: string) {
    NockName(TrimNuls(name)) && HullFee(name) >= HullFee(TrimNuls(name))
  }

  lemma NameVerdict(name: string)
    ensures IsValidName(Cord(name)) && HullFee(name) >= FeeForName(Cord(name)) <==> Registrable(name)
  {
    var t := TrimNuls(name);
    ValidNameOfString(name);
    if NockName(t) {
      NockNameIsAscii(t);
      forall i | 0 <= i < |name| ensures name[i] as int < 0x80 {
        if i < |t| { assert name[i] == t[i]; }
      }
      FeesAgree(name);
    }
  }

  /** For a name that does not end in NUL, as note decoding leaves none, that is all about
      the format; for a name without any it is the format the README promises. */
  lemma RegistrableMeans(name: string)
    requires name == "" || name[|name| - 1] != '\0'
    ensures Registrable(name) <==> NockName(name)
    ensures NulFree(name) ==> (Registrable(name) <==> WellFormedName(name))
  {
    if NulFree(name) { NulFreeNames(name); }
  }

  /** The outputs of `d` pay the treasury at least `fee`, without any cap. */
  ghost predicate Pays(h: Hull, d: Tx, fee: nat) {
    exists total: nat :: PaysInAll(h, d.outputs, total) && total >= fee
  }

  /** No fee is so high that capping the payment could hide whether it was reached. */
  lemma SaturationKeepsVerdict(h: Hull, d: Tx, amount: nat, name: string)
    requires Witnessed(h, d, amount)
    ensures amount >= HullFee(name) <==> Pays(h, d, HullFee(name))
  {
    var sum := Sum(TreasuryAmounts(h, d.outputs));
    forall total: nat ensures PaysInAll(h, d.outputs, total) <==> total == sum {
      TotalPaid(h, d.outputs, total);
    }
    assert HullFee(name) <= U64_MAX;
  }

  /** The kernel's verdict on a claim turns on nothing but the name's format and the true
      payment: saturation and the hull's own fee schedule never change it. */
  lemma ExtractedClaimVerdict(h: Hull, b: Fetch, page: Page, p: Place, c: Candidate)
    requires RejectsWhitespace(h.codec) && AlignedBlock(h.codec, b) && Lists(page, b)
    requires ClaimAt(h, b.details, p, c)
    ensures ValidClaim(page, KernelClaim(c)) <==>
            Registrable(c.name) && Pays(h, b.details[p.tx], HullFee(c.name))
  {
    var d := b.details[p.tx];
    assert d in b.details && h.codec.decode(d.txId).Some?;
    NameVerdict(c.name);
    SaturationKeepsVerdict(h, d, c.wit.treasuryAmount, c.name);
    assert c.txHash in b.pageTxIds;
    HasTxInListMeans(page.txIds, Value(c.txHash, 256));
  }
}
