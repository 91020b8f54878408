/**
 * The observation builder: `observe(claim, claims)`.
 *
 * It fingerprints the claim and every candidate, picks as sibling the
 * candidate fingerprint nearest to the claim's own by character Hamming
 * distance (skipping fingerprints equal to the claim's; the first of equally
 * near ones wins; the claim's own fingerprint when nothing else is left), and
 * binds the two with an anchor digest.
 */
module Observation {
  import opened Wrappers
  import opened Digest

  // ---------------------------------------------------------------------
  // Hamming distance over the zipped common prefix
  // ---------------------------------------------------------------------

  function Min(x: int, y: int): int {
    if x <= y then x else y
  }

  /** `sum(x != y for x, y in zip(a, b))`: mismatching positions up to the shorter length. */
  function Hamming(a: string, b: string): (d: nat)
    ensures d <= Min(|a|, |b|)
  {
    if a == [] || b == [] then 0
    else (if a[0] != b[0] then 1 else 0) + Hamming(a[1..], b[1..])
  }

  /** How many of the first `k` zipped positions differ, counted from the last one back. */
  function MismatchesBelow(a: string, b: string, k: nat): nat
    requires k <= |a| && k <= |b|
  {
    if k == 0 then 0
    else MismatchesBelow(a, b, k - 1) + (if a[k - 1] != b[k - 1] then 1 else 0)
  }

  lemma {:induction false} MismatchesBelowTail(a: string, b: string, k: nat)
    requires 0 < |a| && 0 < |b| && k < |a| && k < |b|
    ensures MismatchesBelow(a, b, k + 1)
         == (if a[0] != b[0] then 1 else 0) + MismatchesBelow(a[1..], b[1..], k)
  {
    if k > 0 {
      MismatchesBelowTail(a, b, k - 1);
      assert a[1..][k - 1] == a[k] && b[1..][k - 1] == b[k];
    }
  }

  /** The distance is the number of mismatching positions among the `min(|a|, |b|)` that `zip` pairs up. */
  lemma {:induction false} HammingCountsMismatches(a: string, b: string)
    ensures Hamming(a, b) == MismatchesBelow(a, b, Min(|a|, |b|))
  {
    if a != [] && b != [] {
      HammingCountsMismatches(a[1..], b[1..]);
      MismatchesBelowTail(a, b, Min(|a|, |b|) - 1);
    }
  }

  /** The distance is zero exactly when the zipped prefixes agree. */
  lemma {:induction false} HammingZeroIff(a: string, b: string)
    ensures var m := Min(|a|, |b|); Hamming(a, b) == 0 <==> a[..m] == b[..m]
  {
    var m := Min(|a|, |b|);
    if a != [] && b != [] {
      HammingZeroIff(a[1..], b[1..]);
      var m' := Min(|a| - 1, |b| - 1);
      assert m == m' + 1;
      assert a[..m] == [a[0]] + a[1..][..m'];
      assert b[..m] == [b[0]] + b[1..][..m'];
      if a[..m] == b[..m] {
        assert a[0] == a[..m][0] == b[..m][0] == b[0];
        assert a[1..][..m'] == a[..m][1..] == b[..m][1..] == b[1..][..m'];
      }
    }
  }

  lemma HammingSelf(a: string)
    ensures Hamming(a, a) == 0
  {
    HammingZeroIff(a, a);
  }

  lemma {:induction false} HammingSymmetric(a: string, b: string)
    ensures Hamming(a, b) == Hamming(b, a)
  {
    if a != [] && b != [] {
      HammingSymmetric(a[1..], b[1..]);
    }
  }

  // ---------------------------------------------------------------------
  // Sibling selection
  // ---------------------------------------------------------------------

  /**
   * One step of `min((h for h in hashes if h != ch), key=...)`: the
   * generator skips `h` equal to `ch`; `min` takes `h` only when it is
   * strictly nearer than the best so far, so the first of equals stays.
   */
  function MinStep(ch: string, best: Option<string>, h: string): (r: Option<string>)
    ensures h != ch ==> r.Some?
    ensures r == best || (h != ch && r == Some(h))
    ensures r.Some? && best.Some? ==> Hamming(ch, r.value) <= Hamming(ch, best.value)
    ensures best.Some? && h != ch && Hamming(ch, best.value) <= Hamming(ch, h) ==> r == best
  {
    if h == ch then best
    else if best.None? || Hamming(ch, h) < Hamming(ch, best.value) then Some(h)
    else best
  }

  /** `min` as a left-to-right pass over the remaining fingerprints `hs`. */
  function MinFrom(ch: string, best: Option<string>, hs: seq<string>): (r: Option<string>)
    ensures r.None? ==> best.None?
    ensures r.Some? ==> r == best || (r.value != ch && r.value in hs)
    decreases |hs|
  {
    if hs == [] then best else MinFrom(ch, MinStep(ch, best, hs[0]), hs[1..])
  }

  /** The sibling: the selected fingerprint, or `ch` itself (`default=ch`) when no candidate differs. */
  function Sibling(ch: string, hs: seq<string>): (s: string)
    ensures s == ch || s in hs
    ensures IsSibling(ch, hs, s)
  {
    SiblingCorrect(ch, hs);
    match MinFrom(ch, None, hs)
    case Some(s) => s
    case None => ch
  }

  /**
   * `hs[k]` is a candidate (differs from `ch`), no candidate is nearer to
   * `ch`, and every candidate before it is strictly farther.
   */
  ghost predicate EarliestNearest(ch: string, hs: seq<string>, k: int) {
    && 0 <= k < |hs|
    && hs[k] != ch
    && (forall j :: 0 <= j < |hs| && hs[j] != ch ==> Hamming(ch, hs[k]) <= Hamming(ch, hs[j]))
    && (forall j :: 0 <= j < k && hs[j] != ch ==> Hamming(ch, hs[k]) < Hamming(ch, hs[j]))
  }

  ghost predicate SomeCandidate(ch: string, hs: seq<string>) {
    exists j :: 0 <= j < |hs| && hs[j] != ch
  }

  /** What the sibling of `ch` among `hs` must be. */
  ghost predicate IsSibling(ch: string, hs: seq<string>, s: string) {
    if SomeCandidate(ch, hs) then exists k :: EarliestNearest(ch, hs, k) && hs[k] == s
    else s == ch
  }

  /** What `min` has computed after scanning `seen`. */
  ghost predicate MinSoFar(ch: string, seen: seq<string>, best: Option<string>) {
    if SomeCandidate(ch, seen) then best.Some? && exists k :: EarliestNearest(ch, seen, k) && seen[k] == best.value
    else best.None?
  }

  lemma MinStepExtends(ch: string, seen: seq<string>, best: Option<string>, h: string)
    requires MinSoFar(ch, seen, best)
    ensures MinSoFar(ch, seen + [h], MinStep(ch, best, h))
  {
    var seen' := seen + [h];
    var n := |seen|;
    assert forall j :: 0 <= j < n ==> seen'[j] == seen[j];
    if SomeCandidate(ch, seen) {
      var k :| EarliestNearest(ch, seen, k) && seen[k] == best.value;
      assert seen'[k] == seen[k];
      if h == ch || Hamming(ch, h) >= Hamming(ch, best.value) {
        assert EarliestNearest(ch, seen', k);
      } else {
        assert seen'[n] == h;
        assert EarliestNearest(ch, seen', n);
      }
    } else if h != ch {
      assert seen'[n] == h;
      assert EarliestNearest(ch, seen', n);
    } else {
      assert !SomeCandidate(ch, seen') by {
        forall j | 0 <= j < |seen'| ensures seen'[j] == ch {
          if j < n {
            assert seen[j] == ch;
          }
        }
      }
    }
  }

  lemma {:induction false} MinFromCorrect(ch: string, seen: seq<string>, best: Option<string>, rest: seq<string>)
    requires MinSoFar(ch, seen, best)
    ensures MinSoFar(ch, seen + rest, MinFrom(ch, best, rest))
    decreases |rest|
  {
    if rest == [] {
      assert seen + rest == seen;
    } else {
      MinStepExtends(ch, seen, best, rest[0]);
      MinFromCorrect(ch, seen + [rest[0]], MinStep(ch, best, rest[0]), rest[1..]);
      assert seen + [rest[0]] + rest[1..] == seen + rest;
    }
  }

  /** The stable `min` with its default picks exactly the sibling `IsSibling` describes. */
  lemma SiblingCorrect(ch: string, hs: seq<string>)
    ensures IsSibling(ch, hs, match MinFrom(ch, None, hs) case Some(s) => s case None => ch)
  {
    assert !SomeCandidate(ch, []);
    MinFromCorrect(ch, [], None, hs);
    assert [] + hs == hs;
  }

  /** `IsSibling` leaves no choice: at most one fingerprint meets it. */
  lemma SiblingUnique(ch: string, hs: seq<string>, s1: string, s2: string)
    requires IsSibling(ch, hs, s1) && IsSibling(ch, hs, s2)
    ensures s1 == s2
  {
    if SomeCandidate(ch, hs) {
      var k1 :| EarliestNearest(ch, hs, k1) && hs[k1] == s1;
      var k2 :| EarliestNearest(ch, hs, k2) && hs[k2] == s2;
      assert k1 == k2;
    }
  }

  // ---------------------------------------------------------------------
  // The observation record
  // ---------------------------------------------------------------------

  /** The dictionary `observe` returns. */
  datatype ObservationRecord<C> = ObservationRecord(
    claim: C,
    claimHash: string,
    position: string,
    siblingHash: string,
    merkleAnchor: string)

  /** `observe(claim, claims)`, with `dumps` standing for `json.dumps(..., sort_keys=True)`. */
  function Observe<C>(h: Hashers, dumps: C -> string, claim: C, claims: seq<C>): (o: ObservationRecord<C>)
    ensures o.claim == claim
    ensures o.claimHash == Fingerprint(h, dumps, claim)
    ensures |o.position| == 32 && o.position == o.claimHash[..32]
    ensures IsSibling(o.claimHash, Fingerprints(h, dumps, claims), o.siblingHash)
    ensures IsFingerprint(o.siblingHash)
    ensures o.merkleAnchor == DualHash(h, Text(o.claimHash + o.siblingHash))
  {
    var ch := Fingerprint(h, dumps, claim);
    var hashes := Fingerprints(h, dumps, claims);
    var sibling := Sibling(ch, hashes);
    ObservationRecord(claim, ch, ch[..32], sibling, DualHash(h, Text(ch + sibling)))
  }

  /** The position tag is the leading 32 hexadecimal characters of the claim's SHA-256 digest. */
  lemma PositionIsShaPrefix<C>(h: Hashers, dumps: C -> string, claim: C, claims: seq<C>)
    ensures var o := Observe(h, dumps, claim, claims);
      && o.position == h.sha256(Utf8(dumps(claim)))[..32]
      && forall i :: 0 <= i < |o.position| ==> IsHexDigit(o.position[i])
  {
    var o := Observe(h, dumps, claim, claims);
    var sha := h.sha256(Utf8(dumps(claim)));
    assert o.position == o.claimHash[..64][..32];
    assert forall i :: 0 <= i < 32 ==> o.position[i] == sha[i];
  }

  /** When every candidate hashes like the claim (or there are none), the claim is its own sibling. */
  lemma SelfSibling<C>(h: Hashers, dumps: C -> string, claim: C, claims: seq<C>)
    requires forall i :: 0 <= i < |claims| ==> Fingerprint(h, dumps, claims[i]) == Fingerprint(h, dumps, claim)
    ensures var o := Observe(h, dumps, claim, claims); o.siblingHash == o.claimHash
  {
    var hs := Fingerprints(h, dumps, claims);
    forall i | 0 <= i < |hs| ensures hs[i] == Fingerprint(h, dumps, claim) {
      assert hs[i] == Fingerprint(h, dumps, claims[i]);
    }
    assert !SomeCandidate(Fingerprint(h, dumps, claim), hs);
  }

  /** `observe(c, [c])`: a single claim is its own sibling. */
  lemma SingletonSelfSibling<C>(h: Hashers, dumps: C -> string, claim: C)
    ensures var o := Observe(h, dumps, claim, [claim]); o.siblingHash == o.claimHash
  {
    SelfSibling(h, dumps, claim, [claim]);
  }

  /**
   * When some candidate hashes differently, the sibling is the fingerprint
   * of some candidate `k`, unequal to the claim's; no differing candidate is
   * nearer; and every differing candidate before `k` is strictly farther.
   */
  lemma DistinctSibling<C>(h: Hashers, dumps: C -> string, claim: C, claims: seq<C>, j: int)
    requires 0 <= j < |claims| && Fingerprint(h, dumps, claims[j]) != Fingerprint(h, dumps, claim)
    ensures var o := Observe(h, dumps, claim, claims);
      && o.siblingHash != o.claimHash
      && (forall i :: 0 <= i < |claims| && Fingerprint(h, dumps, claims[i]) != o.claimHash ==>
            Hamming(o.claimHash, o.siblingHash) <= Hamming(o.claimHash, Fingerprint(h, dumps, claims[i])))
      && exists k :: 0 <= k < |claims| && Fingerprint(h, dumps, claims[k]) == o.siblingHash
           && forall i :: 0 <= i < k && Fingerprint(h, dumps, claims[i]) != o.claimHash ==>
                Hamming(o.claimHash, o.siblingHash) < Hamming(o.claimHash, Fingerprint(h, dumps, claims[i]))
  {
    var o := Observe(h, dumps, claim, claims);
    var k := NearestCandidate(o.claimHash, Fingerprints(h, dumps, claims), o.siblingHash, j);
    NearestAsClaims(h, dumps, claims, o.claimHash, o.siblingHash, k);
  }

  /** Restates facts about the fingerprint list as facts about the claims it comes from. */
  lemma NearestAsClaims<C>(h: Hashers, dumps: C -> string, claims: seq<C>, ch: string, s: string, k: int)
    requires var hs := Fingerprints(h, dumps, claims);
      && 0 <= k < |hs| && hs[k] == s
      && (forall i :: 0 <= i < |hs| && hs[i] != ch ==> Hamming(ch, s) <= Hamming(ch, hs[i]))
      && (forall i :: 0 <= i < k && hs[i] != ch ==> Hamming(ch, s) < Hamming(ch, hs[i]))
    ensures forall i :: 0 <= i < |claims| && Fingerprint(h, dumps, claims[i]) != ch ==>
      Hamming(ch, s) <= Hamming(ch, Fingerprint(h, dumps, claims[i]))
    ensures 0 <= k < |claims| && Fingerprint(h, dumps, claims[k]) == s
    ensures forall i :: 0 <= i < k && Fingerprint(h, dumps, claims[i]) != ch ==>
      Hamming(ch, s) < Hamming(ch, Fingerprint(h, dumps, claims[i]))
  {
    var hs := Fingerprints(h, dumps, claims);
    assert forall i :: 0 <= i < |claims| ==> Fingerprint(h, dumps, claims[i]) == hs[i];
  }

  /** `DistinctSibling` on the list of fingerprints itself; `k` is the index of the sibling. */
  lemma NearestCandidate(ch: string, hs: seq<string>, s: string, j: int) returns (k: int)
    requires IsSibling(ch, hs, s) && 0 <= j < |hs| && hs[j] != ch
    ensures s != ch
    ensures 0 <= k < |hs| && hs[k] == s
    ensures forall i :: 0 <= i < |hs| && hs[i] != ch ==> Hamming(ch, s) <= Hamming(ch, hs[i])
    ensures forall i :: 0 <= i < k && hs[i] != ch ==> Hamming(ch, s) < Hamming(ch, hs[i])
  {
    assert SomeCandidate(ch, hs);
    k :| EarliestNearest(ch, hs, k) && hs[k] == s;
  }

  /**
   * Test W6, for any position: changing one character of the anchor (the
   * test changes index 32) gives a record unequal to a fresh observation of
   * the same inputs.
   */
  lemma TamperDetected<C>(h: Hashers, dumps: C -> string, claim: C, claims: seq<C>, i: int, x: char)
    requires var a := Observe(h, dumps, claim, claims).merkleAnchor; 0 <= i < |a| && x != a[i]
    ensures var o := Observe(h, dumps, claim, claims);
      var a := o.merkleAnchor;
      o.(merkleAnchor := a[..i] + [x] + a[i + 1..]) != Observe(h, dumps, claim, claims)
  {
    var a := Observe(h, dumps, claim, claims).merkleAnchor;
    var t := a[..i] + [x] + a[i + 1..];
    assert t[i] == x;
  }
}
