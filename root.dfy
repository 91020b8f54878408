/**
 * The root aggregator: `root(claims)`.
 *
 * The claims' fingerprints are folded pairwise, round after round: an odd
 * round first duplicates its last fingerprint, then each adjacent pair is
 * replaced by the dual hash of their concatenation, until one is left. No
 * claims at all give the sentinel `dual_hash(b'')`.
 */
module Aggregate {
  import opened Digest

  /** orewave.py:21: an odd-length list gets a copy of its last element appended. */
  function Pad(xs: seq<string>): (ys: seq<string>)
    requires |xs| >= 1
    ensures |ys| % 2 == 0
    ensures |xs| % 2 == 0 ==> ys == xs
    ensures |xs| % 2 == 1 ==> |ys| == |xs| + 1 && ys[..|xs|] == xs && ys[|xs|] == xs[|xs| - 1]
  {
    if |xs| % 2 == 1 then xs + [xs[|xs| - 1]] else xs
  }

  /** orewave.py:22: each adjacent pair, in order, replaced by the dual hash of the two joined. */
  function PairUp(h: Hashers, xs: seq<string>): (ys: seq<string>)
    requires |xs| % 2 == 0
    ensures |ys| == |xs| / 2
    ensures forall i :: 0 <= i < |ys| ==> ys[i] == DualHash(h, Text(xs[2 * i] + xs[2 * i + 1]))
    decreases |xs|
  {
    if xs == [] then [] else [DualHash(h, Text(xs[0] + xs[1]))] + PairUp(h, xs[2..])
  }

  /** One pass of the loop body: pad, then pair up. */
  function Round(h: Hashers, xs: seq<string>): (ys: seq<string>)
    requires |xs| >= 1
    ensures |ys| == (|xs| + 1) / 2
    ensures forall i :: 0 <= i < |ys| ==>
      ys[i] == DualHash(h, Text(xs[2 * i] + xs[if 2 * i + 1 < |xs| then 2 * i + 1 else |xs| - 1]))
  {
    var ys := PairUp(h, Pad(xs));
    assert forall i :: 0 <= i < |Pad(xs)| ==> Pad(xs)[i] == xs[if i < |xs| then i else |xs| - 1];
    ys
  }

  /** Rounds until one fingerprint is left. */
  function Fold(h: Hashers, xs: seq<string>): (r: string)
    requires |xs| >= 1
    ensures |xs| > 1 ==> IsFingerprint(r)
    decreases |xs|
  {
    if |xs| == 1 then xs[0] else Fold(h, Round(h, xs))
  }

  /** What `root(claims)` returns. */
  function RootOf<C>(h: Hashers, dumps: C -> string, claims: seq<C>): (r: string)
    ensures IsFingerprint(r)
  {
    if claims == [] then DualHash(h, Raw([])) else Fold(h, Fingerprints(h, dumps, claims))
  }

  /**
   * `root(claims)` with its `while` loop: `hashes` is padded in place and
   * then rebound to the list of pair digests, until one element is left.
   */
  method Root<C>(h: Hashers, dumps: C -> string, claims: seq<C>) returns (r: string)
    ensures r == RootOf(h, dumps, claims)
    ensures IsFingerprint(r)
  {
    if claims == [] {
      return DualHash(h, Raw([]));
    }
    var hashes := Fingerprints(h, dumps, claims);
    ghost var leaves := hashes;
    while |hashes| > 1
      invariant |hashes| >= 1
      invariant Fold(h, hashes) == Fold(h, leaves)
      decreases |hashes|
    {
      ghost var before := hashes;
      if |hashes| % 2 == 1 {
        hashes := hashes + [hashes[|hashes| - 1]];
      }
      assert hashes == Pad(before);
      hashes := PairUp(h, hashes);
      assert hashes == Round(h, before);
    }
    r := hashes[0];
  }

  /** `root([])` is the sentinel digest of the empty byte string. */
  lemma RootEmpty<C>(h: Hashers, dumps: C -> string)
    ensures RootOf(h, dumps, []) == DualHash(h, Raw([]))
    ensures RootOf(h, dumps, []) == DualHash(h, Text(""))
  {
  }

  /** `root([c])` is the leaf fingerprint of `c`: the loop does not run. */
  lemma RootSingle<C>(h: Hashers, dumps: C -> string, c: C)
    ensures RootOf(h, dumps, [c]) == Fingerprint(h, dumps, c)
  {
    assert Fingerprints(h, dumps, [c]) == [Fingerprint(h, dumps, c)];
  }

  /** Two claims are joined directly: `dual_hash(ha + hb)`. */
  lemma RootPair<C>(h: Hashers, dumps: C -> string, a: C, b: C)
    ensures var ha, hb := Fingerprint(h, dumps, a), Fingerprint(h, dumps, b);
      RootOf(h, dumps, [a, b]) == DualHash(h, Text(ha + hb))
  {
    var ha, hb := Fingerprint(h, dumps, a), Fingerprint(h, dumps, b);
    var cs := [a, b];
    var leaves := Fingerprints(h, dumps, cs);
    assert leaves == [ha, hb] by {
      assert Fingerprint(h, dumps, cs[0]) == ha && Fingerprint(h, dumps, cs[1]) == hb;
    }
    var up := Round(h, leaves);
    assert up == [DualHash(h, Text(ha + hb))];
    assert Fold(h, leaves) == Fold(h, up) == up[0];
  }

  /** Three claims: the third is paired with a copy of itself, not left unpaired. */
  lemma RootThree<C>(h: Hashers, dumps: C -> string, a: C, b: C, c: C)
    ensures var ha, hb, hc := Fingerprint(h, dumps, a), Fingerprint(h, dumps, b), Fingerprint(h, dumps, c);
      RootOf(h, dumps, [a, b, c])
      == DualHash(h, Text(DualHash(h, Text(ha + hb)) + DualHash(h, Text(hc + hc))))
  {
    var ha, hb, hc := Fingerprint(h, dumps, a), Fingerprint(h, dumps, b), Fingerprint(h, dumps, c);
    var cs := [a, b, c];
    var leaves := Fingerprints(h, dumps, cs);
    assert leaves == [ha, hb, hc] by {
      assert Fingerprint(h, dumps, cs[0]) == ha && Fingerprint(h, dumps, cs[1]) == hb;
      assert Fingerprint(h, dumps, cs[2]) == hc;
    }
    var up := Round(h, leaves);
    var x, y := DualHash(h, Text(ha + hb)), DualHash(h, Text(hc + hc));
    assert up == [x, y];
    var top := Round(h, up);
    assert top == [DualHash(h, Text(x + y))];
    assert Fold(h, leaves) == Fold(h, up) == Fold(h, top) == top[0];
  }

  /**
   * The padding rule makes differently sized inputs collide: for an odd
   * list of three or more fingerprints, appending a copy of the last one
   * does not change the fold.
   */
  lemma FoldPaddingAmbiguity(h: Hashers, xs: seq<string>)
    requires |xs| >= 3 && |xs| % 2 == 1
    ensures Fold(h, xs + [xs[|xs| - 1]]) == Fold(h, xs)
  {
    var ys := xs + [xs[|xs| - 1]];
    assert Round(h, ys) == Round(h, xs) by {
      forall i | 0 <= i < |Round(h, xs)| ensures Round(h, ys)[i] == Round(h, xs)[i] {
        assert ys[2 * i] == xs[2 * i];
      }
    }
  }

  /**
   * The same for claims: with an odd number (at least three) of claims,
   * repeating the last claim leaves the root unchanged.
   */
  lemma RootPaddingAmbiguity<C>(h: Hashers, dumps: C -> string, claims: seq<C>)
    requires |claims| >= 3 && |claims| % 2 == 1
    ensures RootOf(h, dumps, claims + [claims[|claims| - 1]]) == RootOf(h, dumps, claims)
  {
    var leaves := Fingerprints(h, dumps, claims);
    var last := claims[|claims| - 1];
    FingerprintsSnoc(h, dumps, claims, last);
    assert Fingerprint(h, dumps, last) == leaves[|leaves| - 1];
    FoldPaddingAmbiguity(h, leaves);
  }

  /** Fingerprinting one more claim appends its fingerprint. */
  lemma FingerprintsSnoc<C>(h: Hashers, dumps: C -> string, claims: seq<C>, c: C)
    ensures Fingerprints(h, dumps, claims + [c]) == Fingerprints(h, dumps, claims) + [Fingerprint(h, dumps, c)]
  {
    var more, padded := claims + [c], Fingerprints(h, dumps, claims) + [Fingerprint(h, dumps, c)];
    forall i | 0 <= i < |more| ensures Fingerprints(h, dumps, more)[i] == padded[i] {
      assert Fingerprints(h, dumps, more)[i] == Fingerprint(h, dumps, more[i]);
      if i < |claims| {
        assert more[i] == claims[i] && padded[i] == Fingerprint(h, dumps, claims[i]);
      }
    }
  }
}
