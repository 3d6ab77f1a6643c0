/** The wallet's newest-first header walk (`wallet_y4.rs`) and the kernel's oldest-first one. */
module HeaderWalk {
  import opened Prelude
  import opened LittleEndian
  import opened Predicates
  import opened Chain

  datatype Link = Link(height: nat, digestHex: string, parentHex: string)

  datatype Checkpoint = Checkpoint(height: nat, digest: Bytes)

  /** `hex_decode_even`. */
  type Hex = string -> Option<Bytes>

  ghost predicate Decodes(hex: Hex, headers: seq<Link>) {
    forall i :: 0 <= i < |headers| ==> hex(headers[i].digestHex).Some? && hex(headers[i].parentHex).Some?
  }

  /** One header for every height from the last proved one down to the checkpoint,
      each naming the next as its parent, with the right digests at both ends; nothing
      at all when the two heights are the same. */
  ghost predicate ChainsTo(hex: Hex, lastHeight: nat, lastDigest: Bytes, cp: Checkpoint, headers: seq<Link>) {
    if lastHeight == cp.height then headers == [] && lastDigest == cp.digest
    else
      && lastHeight > cp.height && |headers| == lastHeight - cp.height + 1
      && Decodes(hex, headers)
      && (forall i :: 0 <= i < |headers| ==> headers[i].height == lastHeight - i)
      && (forall i :: 0 <= i < |headers| - 1 ==> hex(headers[i].parentHex) == hex(headers[i + 1].digestHex))
      && hex(headers[0].digestHex) == Some(lastDigest)
      && hex(headers[|headers| - 1].digestHex) == Some(cp.digest)
  }

  method VerifyHeaderChainToCheckpoint(hex: Hex, lastHeight: nat, lastDigest: Bytes, cp: Checkpoint, headers: seq<Link>)
      returns (r: Result<()>)
    ensures r.Ok? <==> ChainsTo(hex, lastHeight, lastDigest, cp, headers)
  {
    if lastHeight == cp.height {
      if headers != [] || lastDigest != cp.digest {
        return Err;
      }
      return Ok(());
    }
    if lastHeight < cp.height || headers == [] {
      return Err;
    }
    var first := hex(headers[0].digestHex);
    if first.None? || first.value != lastDigest || headers[0].height != lastHeight {
      return Err;
    }
    for i := 0 to |headers|
      invariant Decodes(hex, headers[..i])
      invariant forall j :: 0 <= j <= i && j < |headers| ==> headers[j].height == lastHeight - j
      invariant forall j :: 0 <= j < i && j + 1 < |headers| ==>
                  hex(headers[j].parentHex) == hex(headers[j + 1].digestHex)
      invariant i == |headers| ==>
                  headers[i - 1].height == cp.height && hex(headers[i - 1].digestHex) == Some(cp.digest)
    {
      var d, p := hex(headers[i].digestHex), hex(headers[i].parentHex);
      if d.None? || p.None? {
        return Err;
      }
      assert headers[..i + 1] == headers[..i] + [headers[i]];
      if i + 1 < |headers| {
        var next := hex(headers[i + 1].digestHex);
        if next.None? || p != next || headers[i + 1].height + 1 != headers[i].height {
          return Err;
        }
      } else if headers[i].height != cp.height || d.value != cp.digest {
        return Err;
      }
    }
    assert headers[..|headers|] == headers;
    r := Ok(());
  }

  // ----- against the kernel's walk -----

  function AnchorOf(hex: Hex, l: Link): AnchorHeader
    requires hex(l.digestHex).Some? && hex(l.parentHex).Some?
  {
    AnchorHeader(Value(hex(l.digestHex).value, 256), l.height, Value(hex(l.parentHex).value, 256))
  }

  /** The headers above the checkpoint, oldest first, as the kernel's walk takes them. */
  ghost function OldestFirst(hex: Hex, headers: seq<Link>): (r: seq<AnchorHeader>)
    requires Decodes(hex, headers) && headers != []
    ensures |r| == |headers| - 1
    ensures forall i :: 0 <= i < |r| ==> r[i] == AnchorOf(hex, headers[|headers| - 2 - i])
  {
    seq(|headers| - 1, i requires 0 <= i < |headers| - 1 => AnchorOf(hex, headers[|headers| - 2 - i]))
  }

  ghost predicate Steps(hs: seq<AnchorHeader>) {
    forall i :: 0 < i < |hs| ==> hs[i].parent == hs[i - 1].digest && hs[i].height == hs[i - 1].height + 1
  }

  lemma {:induction false} LinksOnMeans(prev: AnchorHeader, rest: seq<AnchorHeader>, tip: nat)
    ensures var hs := [prev] + rest; LinksOn(prev, rest, tip) <==> Steps(hs) && hs[|hs| - 1].digest == tip
    decreases rest
  {
    if rest != [] {
      LinksOnMeans(rest[0], rest[1..], tip);
      assert [rest[0]] + rest[1..] == rest;
      StepsCons(prev, rest);
    }
  }

  lemma StepsCons(prev: AnchorHeader, rest: seq<AnchorHeader>)
    requires rest != []
    ensures Steps([prev] + rest) <==> Steps(rest) && rest[0].parent == prev.digest && rest[0].height == prev.height + 1
  {
    var hs := [prev] + rest;
    if Steps(hs) {
      forall i | 0 < i < |rest|
        ensures rest[i].parent == rest[i - 1].digest && rest[i].height == rest[i - 1].height + 1
      {
        assert hs[i + 1] == rest[i] && hs[i] == rest[i - 1];
      }
      assert hs[0] == prev && hs[1] == rest[0];
      assert hs[1].parent == hs[0].digest && hs[1].height == hs[0].height + 1;
    } else if Steps(rest) && rest[0].parent == prev.digest && rest[0].height == prev.height + 1 {
      forall i | 0 < i < |hs| ensures hs[i].parent == hs[i - 1].digest && hs[i].height == hs[i - 1].height + 1 {
        assert hs[i] == rest[i - 1] && (i > 1 ==> hs[i - 1] == rest[i - 2]);
      }
    }
  }

  /** The kernel's recursive walk, as one statement about the whole list. */
  lemma ChainLinksMeans(claimDigest: nat, hs: seq<AnchorHeader>, tip: nat)
    ensures ChainLinksTo(claimDigest, hs, tip) <==>
            if hs == [] then claimDigest == tip
            else hs[0].parent == claimDigest && Steps(hs) && hs[|hs| - 1].digest == tip
  {
    if hs != [] {
      assert [hs[0]] + hs[1..] == hs;
      LinksOnMeans(hs[0], hs[1..], tip);
    }
  }

  ghost predicate FullDigests(hex: Hex, headers: seq<Link>) {
    && Decodes(hex, headers)
    && forall i :: 0 <= i < |headers| ==>
         |hex(headers[i].digestHex).value| == 40 && |hex(headers[i].parentHex).value| == 40
  }

  /** What the wallet's walk accepts, the kernel's accepts, reversed and without the checkpoint. */
  lemma {:induction false} WalletWalkLinks(hex: Hex, lastHeight: nat, lastDigest: Bytes, cp: Checkpoint,
          headers: seq<Link>)
    requires ChainsTo(hex, lastHeight, lastDigest, cp, headers)
    ensures headers == [] ==> ChainLinksTo(Value(cp.digest, 256), [], Value(lastDigest, 256))
    ensures headers != [] ==> ChainLinksTo(Value(cp.digest, 256), OldestFirst(hex, headers), Value(lastDigest, 256))
  {
    if headers != [] {
      var hs, n := OldestFirst(hex, headers), |headers|;
      ChainLinksMeans(Value(cp.digest, 256), hs, Value(lastDigest, 256));
      forall i | 0 < i < |hs|
        ensures hs[i].parent == hs[i - 1].digest && hs[i].height == hs[i - 1].height + 1
      {
        var k := n - 2 - i;
        assert hex(headers[k].parentHex) == hex(headers[k + 1].digestHex);
      }
      assert hex(headers[n - 2].parentHex) == hex(headers[n - 2 + 1].digestHex);
    }
  }

  /** The two walks are one relation: on decodable 40-byte headers whose two ends carry
      the heights the kernel does not check (the newest is the last proved block, the
      oldest two the checkpoint and its child), each accepts exactly when the other does. */
  lemma {:induction false} WalksAgree(hex: Hex, lastHeight: nat, lastDigest: Bytes, cp: Checkpoint, headers: seq<Link>)
    requires FullDigests(hex, headers) && |lastDigest| == 40 && |headers| >= 2
    requires lastHeight > cp.height && headers[0].height == lastHeight
    requires headers[|headers| - 1].height == cp.height && headers[|headers| - 2].height == cp.height + 1
    requires hex(headers[|headers| - 1].digestHex) == Some(cp.digest)
    ensures ChainsTo(hex, lastHeight, lastDigest, cp, headers) <==>
            ChainLinksTo(Value(cp.digest, 256), OldestFirst(hex, headers), Value(lastDigest, 256))
  {
    var hs, n := OldestFirst(hex, headers), |headers|;
    if ChainsTo(hex, lastHeight, lastDigest, cp, headers) {
      WalletWalkLinks(hex, lastHeight, lastDigest, cp, headers);
    }
    ChainLinksMeans(Value(cp.digest, 256), hs, Value(lastDigest, 256));
    if ChainLinksTo(Value(cp.digest, 256), hs, Value(lastDigest, 256)) {
      StepsGiveHeights(hex, headers);
      StepsGiveParents(hex, headers);
      assert hs[|hs| - 1] == AnchorOf(hex, headers[0]);
      SameDigest(hex(headers[0].digestHex).value, lastDigest);
    }
  }

  lemma {:induction false} SameDigest(a: Bytes, b: Bytes)
    requires |a| == |b| == 40 && Value(a, 256) == Value(b, 256)
    ensures a == b
  {
    ValueInjective(a, b, 256);
  }

  lemma StepsGiveHeights(hex: Hex, headers: seq<Link>)
    requires Decodes(hex, headers) && |headers| >= 2 && Steps(OldestFirst(hex, headers))
    requires headers[|headers| - 2].height == headers[|headers| - 1].height + 1
    ensures forall i :: 0 <= i < |headers| ==> headers[i].height == headers[0].height - i
    ensures headers[0].height == headers[|headers| - 1].height + |headers| - 1
  {
    var hs, n := OldestFirst(hex, headers), |headers|;
    forall i | 0 <= i < n - 1 ensures headers[i].height == headers[n - 2].height + (n - 2 - i) {
      HeightsFrom(hs, n - 2 - i);
      assert hs[n - 2 - i] == AnchorOf(hex, headers[i]);
    }
  }

  lemma StepsGiveParents(hex: Hex, headers: seq<Link>)
    requires FullDigests(hex, headers) && |headers| >= 2 && Steps(OldestFirst(hex, headers))
    requires OldestFirst(hex, headers)[0].parent == Value(hex(headers[|headers| - 1].digestHex).value, 256)
    ensures forall i :: 0 <= i < |headers| - 1 ==> hex(headers[i].parentHex) == hex(headers[i + 1].digestHex)
  {
    var hs, n := OldestFirst(hex, headers), |headers|;
    forall i | 0 <= i < n - 1 ensures hex(headers[i].parentHex) == hex(headers[i + 1].digestHex) {
      var k := n - 2 - i;
      assert hs[k] == AnchorOf(hex, headers[i]);
      if k > 0 {
        assert hs[k - 1] == AnchorOf(hex, headers[i + 1]) && hs[k].parent == hs[k - 1].digest;
      }
      SameDigest(hex(headers[i].parentHex).value, hex(headers[i + 1].digestHex).value);
    }
  }

  lemma HeightsFrom(hs: seq<AnchorHeader>, i: nat)
    requires Steps(hs) && i < |hs|
    ensures hs[i].height == hs[0].height + i
  {
    if i > 0 { HeightsFrom(hs, i - 1); }
  }
}
