/** The kernel's claim predicates and block scanner (`nns-predicates.hoon`). */
module Predicates {
  import opened Prelude
  import opened LittleEndian
  import opened Text
  import opened Accumulator

  // ----- cords -----

  /** `met 3`: the bytes of an atom, not counting leading zeros. */
  function Met(a: nat): nat {
    |Digits(a, 256)|
  }

  /** `cut 3 [off len] a`. */
  function Cut(a: nat, off: nat, len: nat): nat
    requires off + len <= Met(a)
  {
    Value(Digits(a, 256)[off..off + len], 256)
  }

  const DOT_NOCK: seq<nat> := [46, 110, 111, 99, 107]

  predicate ValidChar(c: nat) {
    97 <= c <= 122 || 48 <= c <= 57
  }

  predicate ValidFrom(cord: nat, i: nat)
    requires i <= Met(cord)
    decreases Met(cord) - i
  {
    i == Met(cord) || (ValidChar(Cut(cord, i, 1)) && ValidFrom(cord, i + 1))
  }

  predicate AllValidChars(cord: nat) {
    ValidFrom(cord, 0)
  }

  predicate HasNockSuffix(cord: nat) {
    var n := Met(cord);
    n >= 6 && Cut(cord, n - 5, 5) == Value(DOT_NOCK, 256)
  }

  predicate IsValidName(name: nat) {
    && HasNockSuffix(name)
    && var stemLen := Met(name) - 5;
       stemLen != 0 && AllValidChars(Cut(name, 0, stemLen))
  }

  /** Fees in nicks, by the stem length in bytes. */
  function FeeForName(name: nat): nat {
    var bytes := Met(name);
    var hasSuffix := bytes >= 5 && Cut(name, bytes - 5, 5) == Value(DOT_NOCK, 256);
    var stemLen := if hasSuffix then bytes - 5 else bytes;
    if stemLen == 0 then 0
    else if stemLen >= 10 then 6_553_600
    else if stemLen >= 5 then 32_768_000
    else 327_680_000
  }

  /** How many digits remain once the zeros at the top are dropped. */
  function Significant(digits: seq<nat>): (m: nat)
    ensures m <= |digits|
    ensures Minimal(digits[..m])
    ensures forall i :: m <= i < |digits| ==> digits[i] == 0
  {
    if digits == [] then 0
    else if digits[|digits| - 1] != 0 then |digits|
    else
      var front := digits[..|digits| - 1];
      assert front[..Significant(front)] == digits[..Significant(front)];
      Significant(digits[..|digits| - 1])
  }

  lemma {:induction false} DigitsDropZeros(digits: seq<nat>)
    requires InBase(digits, 256)
    ensures Digits(Value(digits, 256), 256) == digits[..Significant(digits)]
  {
    var m := Significant(digits);
    assert digits == digits[..m] + Zeros(|digits| - m);
    ValuePadded(digits[..m], |digits| - m, 256);
    DigitsOfValue(digits[..m], 256);
  }

  lemma {:induction false} CutByte(cord: nat, i: nat)
    requires i < Met(cord)
    ensures Cut(cord, i, 1) == Digits(cord, 256)[i]
  {
    var slice := Digits(cord, 256)[i..i + 1];
    assert Value(slice[1..], 256) == 0;
  }

  lemma {:induction false} ValidFromMeans(cord: nat, i: nat)
    requires i <= Met(cord)
    ensures ValidFrom(cord, i) <==> forall j :: i <= j < Met(cord) ==> ValidChar(Digits(cord, 256)[j])
    decreases Met(cord) - i
  {
    if i < Met(cord) {
      ValidFromMeans(cord, i + 1);
      CutByte(cord, i);
      assert ValidFrom(cord, i) <==> ValidChar(Digits(cord, 256)[i]) && ValidFrom(cord, i + 1);
    }
  }

  lemma {:induction false} ByteSlice(cord: nat, off: nat, n: nat)
    requires off + n <= Met(cord)
    ensures InBase(Digits(cord, 256)[off..off + n], 256)
  {
    DigitsRecompose(cord, 256);
  }

  lemma {:induction false} SameValue(xs: seq<nat>, ys: seq<nat>)
    requires |xs| == |ys| && InBase(xs, 256) && InBase(ys, 256)
    ensures Value(xs, 256) == Value(ys, 256) <==> xs == ys
  {
    if Value(xs, 256) == Value(ys, 256) { ValueInjective(xs, ys, 256); }
  }

  /** A cut equals a cord of as many bytes when its bytes are those bytes. */
  lemma {:induction false} CutEquals(cord: nat, off: nat, bytes: seq<nat>)
    requires off + |bytes| <= Met(cord) && InBase(bytes, 256)
    ensures Cut(cord, off, |bytes|) == Value(bytes, 256) <==> Digits(cord, 256)[off..off + |bytes|] == bytes
  {
    ByteSlice(cord, off, |bytes|);
    SameValue(Digits(cord, 256)[off..off + |bytes|], bytes);
  }

  ghost predicate CharsThenNuls(stem: seq<nat>, m: nat) {
    && m <= |stem|
    && (forall i :: 0 <= i < m ==> ValidChar(stem[i]))
    && forall i :: m <= i < |stem| ==> stem[i] == 0
  }

  ghost predicate ValidStem(stem: seq<nat>) {
    exists m: nat :: CharsThenNuls(stem, m)
  }

  lemma {:induction false} StemValid(stem: seq<nat>)
    requires InBase(stem, 256)
    ensures AllValidChars(Value(stem, 256)) <==> ValidStem(stem)
  {
    var cut, k := Value(stem, 256), Significant(stem);
    DigitsDropZeros(stem);
    ValidFromMeans(cut, 0);
    if AllValidChars(cut) {
      assert forall i :: 0 <= i < k ==> stem[i] == stem[..k][i];
      assert CharsThenNuls(stem, k);
    }
    forall m: nat | CharsThenNuls(stem, m) ensures AllValidChars(cut) {
      if k > 0 { assert stem[..k][k - 1] == stem[k - 1]; }
      assert k <= m;
    }
  }

  /** What `is-valid-name` accepts: `.nock` after a non-empty stem of lowercase letters
      and digits, which NUL bytes may follow (even with no letter before them). */
  lemma {:induction false} ValidNameExact(name: nat)
    ensures var bytes := Digits(name, 256);
            IsValidName(name) <==>
              && |bytes| >= 6 && bytes[|bytes| - 5..] == DOT_NOCK
              && ValidStem(bytes[..|bytes| - 5])
  {
    DigitsRecompose(name, 256);
    ValidNameBytes(name, Digits(name, 256));
  }

  lemma {:induction false} ValidNameBytes(name: nat, bytes: seq<nat>)
    requires bytes == Digits(name, 256) && InBase(bytes, 256)
    ensures IsValidName(name) <==>
            |bytes| >= 6 && bytes[|bytes| - 5..] == DOT_NOCK && ValidStem(bytes[..|bytes| - 5])
  {
    if |bytes| >= 6 {
      var n := |bytes| - 5;
      var stem := bytes[..n];
      CutEquals(name, n, DOT_NOCK);
      assert bytes[n..] == bytes[n..n + 5];
      assert stem == bytes[0..0 + n];
      StemValid(stem);
      assert AllValidChars(Cut(name, 0, n)) <==> ValidStem(stem);
    }
  }

  /** The stem `\\0` is accepted, though it holds no letter or digit. */
  lemma NulStemAccepted()
    ensures IsValidName(Value([0] + DOT_NOCK, 256))
  {
    var bytes: seq<nat> := [0] + DOT_NOCK;
    DigitsOfValue(bytes, 256);
    ValidNameExact(Value(bytes, 256));
    assert bytes[|bytes| - 5..] == DOT_NOCK;
    assert CharsThenNuls(bytes[..|bytes| - 5], 0);
  }

  /** The format the README promises: `.nock` after one or more of a-z, 0-9. */
  predicate WellFormedName(s: string) {
    && |s| >= 6 && s[|s| - 5..] == ".nock"
    && forall i :: 0 <= i < |s| - 5 ==> 'a' <= s[i] <= 'z' || '0' <= s[i] <= '9'
  }

  /** The same, with NULs allowed between the stem and `.nock`. */
  ghost predicate NockName(s: string) {
    |s| >= 6 && s[|s| - 5..] == ".nock" && NockStem(s[..|s| - 5])
  }

  ghost predicate NockStem(stem: string) {
    exists m: nat :: LettersThenNuls(stem, m)
  }

  ghost predicate LettersThenNuls(stem: string, m: nat) {
    && m <= |stem|
    && (forall i :: 0 <= i < m ==> 'a' <= stem[i] <= 'z' || '0' <= stem[i] <= '9')
    && forall i :: m <= i < |stem| ==> stem[i] == '\0'
  }

  /** What the kernel accepts of the cords the hull makes: exactly these names, once the
      trailing NULs are off. */
  lemma {:induction false} ValidNameOfString(s: string)
    ensures IsValidName(Cord(s)) <==> NockName(TrimNuls(s))
  {
    var t := TrimNuls(s);
    var bytes := Utf8(t);
    CordBytes(s);
    ValidNameExact(Cord(s));
    Utf8OfAscii(t);
    if Ascii(t) {
      if |t| >= 6 {
        SameSuffix(t, bytes);
        SameStem(t[..|t| - 5], bytes[..|t| - 5]);
      }
    } else {
      var i :| 0 <= i < |t| && t[i] as int >= 0x80;
      var j := NonAsciiByte(t, i);
      if IsValidName(Cord(s)) { HighByteSpoils(bytes, j); }
      if NockName(t) { NockNameIsAscii(t); }
    }
  }

  /** On NUL-free strings that is the promised format. */
  lemma {:induction false} NulFreeNames(s: string)
    requires NulFree(s)
    ensures TrimNuls(s) == s
    ensures NockName(s) <==> WellFormedName(s)
    ensures IsValidName(Cord(s)) <==> WellFormedName(s)
  {
    ValidNameOfString(s);
    if |s| >= 6 {
      var stem := s[..|s| - 5];
      if WellFormedName(s) { assert LettersThenNuls(stem, |stem|); }
      if m: nat :| LettersThenNuls(stem, m) {
        assert forall i :: 0 <= i < |stem| ==> stem[i] == s[i];
      }
    }
  }

  lemma SameStem(stem: string, bytes: seq<nat>)
    requires |stem| == |bytes| && forall i :: 0 <= i < |stem| ==> bytes[i] == stem[i] as int
    ensures ValidStem(bytes) <==> NockStem(stem)
  {
    forall m: nat ensures CharsThenNuls(bytes, m) <==> LettersThenNuls(stem, m) {
      if m <= |stem| {
        assert forall i :: 0 <= i < |stem| ==>
                 (ValidChar(bytes[i]) <==> 'a' <= stem[i] <= 'z' || '0' <= stem[i] <= '9');
        assert forall i :: 0 <= i < |stem| ==> (bytes[i] == 0 <==> stem[i] == '\0');
      }
    }
  }

  lemma HighByteSpoils(bytes: seq<nat>, j: nat)
    requires |bytes| >= 6 && j < |bytes| && bytes[j] >= 0x80
    ensures bytes[|bytes| - 5..] != DOT_NOCK || !ValidStem(bytes[..|bytes| - 5])
  {
    var n := |bytes| - 5;
    if j >= n {
      assert bytes[n..][j - n] == bytes[j];
    } else {
      assert bytes[..n][j] == bytes[j];
    }
  }

  lemma NockNameIsAscii(s: string)
    requires NockName(s)
    ensures Ascii(s)
  {
    var n := |s| - 5;
    var m: nat :| LettersThenNuls(s[..n], m);
    forall i | 0 <= i < |s| ensures s[i] as int < 0x80 {
      if i < n { assert s[..n][i] == s[i]; } else { assert s[n..][i - n] == s[i]; }
    }
  }

  lemma SameSuffix(s: string, bytes: seq<nat>)
    requires |s| == |bytes| >= 5
    requires forall i :: 0 <= i < |s| ==> bytes[i] == s[i] as int
    ensures bytes[|s| - 5..] == DOT_NOCK <==> s[|s| - 5..] == ".nock"
  {
    var xs, cs := bytes[|s| - 5..], s[|s| - 5..];
    assert forall i :: 0 <= i < 5 ==> xs[i] == cs[i] as int;
    if xs == DOT_NOCK {
      assert cs[0] == '.' && cs[1] == 'n' && cs[2] == 'o' && cs[3] == 'c' && cs[4] == 'k';
    }
  }

  /** `payment.rs`: the stem is what precedes a final `.nock`, measured in characters. */
  function HullFee(name: string): nat {
    var stem := if |name| >= 5 && name[|name| - 5..] == ".nock" then name[..|name| - 5] else name;
    if |stem| == 0 then 0
    else if |stem| >= 10 then 6_553_600
    else if |stem| >= 5 then 32_768_000
    else 327_680_000
  }

  /** The two fee schedules agree on ASCII names, so on every valid name, as far as the
      cord keeps them. */
  lemma {:induction false} FeesAgree(s: string)
    requires Ascii(s)
    ensures FeeForName(Cord(s)) == HullFee(TrimNuls(s))
  {
    CordBytes(s);
    Utf8OfAscii(TrimNuls(s));
    FeeOfBytes(Cord(s), TrimNuls(s));
  }

  lemma {:induction false} FeeOfBytes(name: nat, t: string)
    requires |t| == Met(name) && forall i :: 0 <= i < |t| ==> Digits(name, 256)[i] == t[i] as int
    ensures FeeForName(name) == HullFee(t)
  {
    if |t| >= 5 {
      var bytes, n := Digits(name, 256), |t| - 5;
      CutEquals(name, n, DOT_NOCK);
      assert bytes[n..] == bytes[n..n + 5];
      SameSuffix(t, bytes);
    }
  }

  // ----- claims -----

  /** The lock root is a base58 cord, kept here as its text. */
  datatype Witness = Witness(txId: nat, spenderPkh: nat, treasuryAmount: nat, outputLockRoot: string)

  datatype Claim = Claim(name: nat, owner: nat, fee: nat, txHash: nat, wit: Witness)

  datatype Page = Page(digest: nat, txIds: seq<nat>)

  const TREASURY_LOCK_ROOT: string := "A3LoWjxurwiyzhkv8sgDv2MVu9PwgWHmqoncXw9GEQ5M3qx46svvadE"

  predicate HasTxInList(txIds: seq<nat>, txId: nat) {
    txIds != [] && (txIds[0] == txId || HasTxInList(txIds[1..], txId))
  }

  lemma {:induction false} HasTxInListMeans(txIds: seq<nat>, txId: nat)
    ensures HasTxInList(txIds, txId) <==> txId in txIds
  {
    if txIds != [] {
      HasTxInListMeans(txIds[1..], txId);
      assert txId in txIds <==> txId == txIds[0] || txId in txIds[1..];
    }
  }

  predicate ValidClaim(page: Page, c: Claim) {
    && IsValidName(c.name)
    && c.fee >= FeeForName(c.name)
    && HasTxInList(page.txIds, c.txHash)
    && c.wit.txId == c.txHash
    && c.owner == c.wit.spenderPkh
    && c.wit.treasuryAmount >= c.fee
    && c.wit.outputLockRoot == TREASURY_LOCK_ROOT
  }

  /** What a claim must pay for a stem of `n` bytes. */
  predicate FeeCovers(fee: nat, n: nat) {
    && (n < 5 ==> fee >= 327_680_000)
    && (5 <= n < 10 ==> fee >= 32_768_000)
    && (n >= 10 ==> fee >= 6_553_600)
  }

  /** What entitles a claim to its name in a block that lists the transactions `txIds`: the
      name's bytes are well formed, and the witness names the claim's own transaction, one
      of the block's, with the owner as its spender, and a payment to the treasury of at
      least the claim's fee, which covers the schedule. */
  ghost predicate Entitled(txIds: seq<nat>, c: Claim) {
    var bytes := Digits(c.name, 256);
    && |bytes| >= 6 && bytes[|bytes| - 5..] == DOT_NOCK && ValidStem(bytes[..|bytes| - 5])
    && FeeCovers(c.fee, |bytes| - 5)
    && c.txHash in txIds && c.wit.txId == c.txHash
    && c.wit.spenderPkh == c.owner
    && c.wit.outputLockRoot == TREASURY_LOCK_ROOT && c.wit.treasuryAmount >= c.fee
  }

  /** The kernel's predicate holds of exactly the claims entitled to their names. */
  lemma ValidClaimMeans(page: Page, c: Claim)
    ensures ValidClaim(page, c) <==> Entitled(page.txIds, c)
  {
    HasTxInListMeans(page.txIds, c.txHash);
    ValidNameExact(c.name);
    if IsValidName(c.name) { FeeOfStem(c.name, c.fee); }
  }

  lemma {:induction false} FeeOfStem(name: nat, fee: nat)
    requires IsValidName(name)
    ensures fee >= FeeForName(name) <==> FeeCovers(fee, |Digits(name, 256)| - 5)
  {
  }

  /** The row a claim writes when it is folded in. */
  function EntryOf(page: Page, height: nat, c: Claim): Entry {
    Entry(c.name, c.owner, c.txHash, height, page.digest)
  }

  function ClaimScanner(tip5: Tip5, acc: Acc, page: Page, height: nat, claims: seq<Claim>): Acc
    decreases claims
  {
    if claims == [] then acc
    else
      var c := claims[0];
      var acc' := if ValidClaim(page, c) then Insert(tip5, acc, c.name, EntryOf(page, height, c)) else acc;
      ClaimScanner(tip5, acc', page, height, claims[1..])
  }

  /** Claim `i` of the list is entitled to its name, whose key is `k`. */
  ghost predicate Bid(tip5: Tip5, txIds: seq<nat>, claims: seq<Claim>, i: nat, k: Digest) {
    i < |claims| && Entitled(txIds, claims[i]) && NameKey(tip5, claims[i].name) == k
  }

  /** The first entitled claim of a block to key `k`. */
  ghost function FirstBid(tip5: Tip5, txIds: seq<nat>, claims: seq<Claim>, k: Digest): (r: Option<nat>)
    ensures r.Some? ==> Bid(tip5, txIds, claims, r.value, k)
    ensures r.Some? ==> forall j: nat :: Bid(tip5, txIds, claims, j, k) ==> r.value <= j
    ensures r.None? ==> forall j: nat :: !Bid(tip5, txIds, claims, j, k)
  {
    if claims == [] then None
    else if Bid(tip5, txIds, claims, 0, k) then Some(0)
    else
      assert forall j: nat :: j > 0 ==> (Bid(tip5, txIds, claims, j, k) <==> Bid(tip5, txIds, claims[1..], j - 1, k));
      var rest := FirstBid(tip5, txIds, claims[1..], k);
      if rest.None? then None else Some(rest.value + 1)
  }

  /** The row of claim `c` in a block of the given height and digest. */
  ghost predicate IsRowOf(e: Entry, c: Claim, height: nat, digest: nat) {
    && e.name == c.name && e.owner == c.owner && e.txHash == c.txHash
    && e.claimHeight == height && e.blockDigest == digest
  }

  /** Scanning a block leaves every row in place, and gives a free key to the first
      entitled claim to it, if there is one. */
  lemma {:induction false} ScannerLookup(tip5: Tip5, acc: Acc, page: Page, height: nat, claims: seq<Claim>, k: Digest)
    ensures var out, first := ClaimScanner(tip5, acc, page, height, claims), FirstBid(tip5, page.txIds, claims, k);
            if k in acc then k in out && out[k] == acc[k]
            else if first.Some? then k in out && IsRowOf(out[k], claims[first.value], height, page.digest)
            else k !in out
    decreases claims
  {
    if claims != [] {
      var c := claims[0];
      ValidClaimMeans(page, c);
      var acc' := if ValidClaim(page, c) then Insert(tip5, acc, c.name, EntryOf(page, height, c)) else acc;
      ScannerLookup(tip5, acc', page, height, claims[1..], k);
    }
  }

  // ----- header chains -----

  datatype AnchorHeader = AnchorHeader(digest: nat, height: nat, parent: nat)

  /** Oldest first, from the claim's block to the anchored tip. */
  predicate ChainLinksTo(claimDigest: nat, headers: seq<AnchorHeader>, anchoredTip: nat) {
    if headers == [] then claimDigest == anchoredTip
    else headers[0].parent == claimDigest && LinksOn(headers[0], headers[1..], anchoredTip)
  }

  predicate LinksOn(prev: AnchorHeader, rest: seq<AnchorHeader>, anchoredTip: nat)
    decreases rest
  {
    if rest == [] then prev.digest == anchoredTip
    else
      && rest[0].parent == prev.digest
      && rest[0].height == prev.height + 1
      && LinksOn(rest[0], rest[1..], anchoredTip)
  }
}
