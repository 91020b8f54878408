# orewave: fingerprints, observations and roots

This project models the core of orewave in Dafny. That core has three stateless operations:

- `dual_hash` turns text or bytes into a fingerprint `"<sha256-hex>:<second-hex>"`.
  The second half is the BLAKE3 digest when the optional `blake3` package was imported.
  Otherwise it is a copy of the SHA-256 half.
- `observe(claim, claims)` fingerprints one claim and every candidate.
  It picks as *sibling* the candidate fingerprint nearest to the claim's own, by character Hamming distance.
  Fingerprints equal to the claim's own are skipped, and the first of several equally near ones wins.
  It returns a record with the claim, its fingerprint, a 32-character position tag, the sibling and an anchor `dual_hash(claim_hash + sibling_hash)`.
- `root(claims)` folds the claims' fingerprints pairwise until one is left.
  Each round first duplicates the last fingerprint of an odd-length list.
  No claims at all give the sentinel `dual_hash(b'')`.

Layout, one module per component:

- `wrappers.dfy` (`Wrappers`): the `Option` type.
- `digest.dfy` (`Digest`): UTF-8 encoding as `str.encode()` does it, the hex and fingerprint formats, Python's `split`, `DualHash`, and claim fingerprints.
- `observe.dfy` (`Observation`): the Hamming distance, the stable `min` that picks the sibling, and `Observe`.
- `root.dfy` (`Aggregate`): the padding and pairing round, the recursive `Fold` that specifies the root, and the imperative `Root` method with its `while` loop.

What is passed in rather than modelled:

- The two digest algorithms are a `Hashers` value. Its `sha256` field is a function from bytes to 64 lower-case hex characters (`Hex64`). Its `blake3` field is `Some` of such a function, or `None` when the import at orewave.py:2-3 failed. The value is chosen once and used by every call.
- `json.dumps(c, sort_keys=True)` is the parameter `dumps: C -> string`. The claim type `C` is generic.
- The `isinstance(data, str)` dispatch at orewave.py:6 is the `Data` datatype: `Text` is encoded as UTF-8, `Raw` is hashed as given.

Two behaviours of the code worth naming:

- An empty candidate list gives `sibling_hash == claim_hash` (`default=ch`). `Observe` has no precondition on the list.
- The distance counts differing hex *characters* over the zipped common prefix, not differing bits.

## Model

| member | source | states |
|---|---|---|
| `Digest.EncodeChar` | orewave.py:6 | one character encodes to 1 to 4 bytes, and to exactly one byte iff it is ASCII |
| `Digest.Utf8` | orewave.py:6 | `str.encode()`: a string encodes to at least as many bytes as it has characters |
| `Digest.EncodeCharRoundTrip` | orewave.py:6 | the lead byte of each encoded character announces its length, and the strict (shortest-form only) decoder gives the character back |
| `Digest.OverlongRejected` | orewave.py:6 | the decoder rejects overlong forms, such as `C0 80` and `F0 80 83 A9`, as Python's `bytes.decode()` does |
| `Digest.Utf8RoundTrip` | orewave.py:6 | the strict decoder applied to the encoding of any string gives the string back. So the encoding emits shortest forms only, and distinct texts are hashed as distinct bytes |
| `Digest.Utf8Append` | orewave.py:6 | encoding a concatenation is the concatenation of the encodings |
| `Digest.Utf8Ascii` | orewave.py:6 | ASCII text encodes to one byte per character, equal to its code |
| `Digest.Split` | tests/test_witness.py:30 | Python's `split` on one separator always returns at least one part |
| `Digest.SplitOnce` | tests/test_witness.py:30-31 | splitting `a + sep + b`, where neither side contains `sep`, gives exactly `[a, b]` |
| `Digest.FingerprintParts` | tests/test_witness.py:26-35 | a fingerprint contains exactly one `:` and splits into exactly its two 64-character hex halves |
| `Digest.Encode` | orewave.py:6 | the `isinstance(data, str)` dispatch: text becomes bytes that decode back to the text; bytes are hashed unchanged |
| `Digest.DualHash` | orewave.py:5-8 | the result is a fingerprint; the first half is SHA-256 of the UTF-8 encoding of text, or of bytes as given; the second half is BLAKE3's digest when it is present; without BLAKE3 the two halves are identical |
| `Digest.EmptyTextIsEmptyBytes` | orewave.py:6 | `dual_hash('')` and `dual_hash(b'')` are the same fingerprint |
| `Digest.Fingerprint` | orewave.py:11 | the fingerprint of a claim's serialisation has the fingerprint format |
| `Digest.Fingerprints` | orewave.py:12 | the comprehension keeps the order and length of the claims, one fingerprint per claim, and every element has the fingerprint format |
| `Digest.FingerprintIsAscii` | orewave.py:15 | every character of a fingerprint is ASCII |
| `Digest.JoinedFingerprintBytes` | orewave.py:15 | joining two fingerprints (the anchor input) and encoding the result gives 258 bytes, each equal to the code of the character at its position |
| `Observation.Hamming` | orewave.py:13 | the distance is at most the length of the shorter string |
| `Observation.HammingCountsMismatches` | orewave.py:13 | the distance equals the number of positions below the shorter length at which the two strings differ |
| `Observation.HammingZeroIff` | orewave.py:13 | the distance is 0 iff the two strings agree on their common-length prefix |
| `Observation.HammingSelf` | orewave.py:13 | a string is at distance 0 from itself |
| `Observation.HammingSymmetric` | orewave.py:13 | the distance does not depend on argument order |
| `Observation.MinStep` | orewave.py:14 | one step of the stable `min`: a fingerprint equal to `ch` is skipped; an unequal one replaces the best only when strictly nearer; the best never gets farther |
| `Observation.MinFrom` | orewave.py:14 | the left-to-right pass returns nothing only if it started with nothing; otherwise it returns its starting best or some scanned fingerprint unequal to `ch` |
| `Observation.MinFromCorrect` | orewave.py:14 | each step of the filtered left-to-right `min` keeps the earliest nearest candidate seen so far |
| `Observation.Sibling` | orewave.py:14 | `min(..., default=ch)` returns `ch` or one of the candidate fingerprints, and it meets `IsSibling` (see `SiblingCorrect`) |
| `Observation.SiblingCorrect` | orewave.py:14 | the `min` with `default=ch` returns the earliest candidate at minimal distance among those unequal to `ch`, or `ch` when there is none |
| `Observation.SiblingUnique` | orewave.py:14 | at most one fingerprint meets that description, so it fixes the sibling |
| `Observation.Observe` | orewave.py:10-15 | `claim` is unchanged; `claim_hash` is the claim's fingerprint; `position` is its first 32 characters; `sibling_hash` is the sibling chosen as above and is a fingerprint; `merkle_anchor` is `dual_hash(claim_hash + sibling_hash)` |
| `Observation.PositionIsShaPrefix` | orewave.py:15 | the position tag is the first 32 hex characters of the claim's SHA-256 digest |
| `Observation.SelfSibling` | orewave.py:14 | when every candidate (or none) hashes like the claim, the sibling is the claim's own fingerprint |
| `Observation.SingletonSelfSibling` | tests/test_witness.py:38-42 | `observe(c, [c])` has `sibling_hash == claim_hash` |
| `Observation.DistinctSibling` | orewave.py:12-14 | when some candidate hashes differently, the sibling differs from the claim's fingerprint; no differing candidate is strictly nearer; it is the fingerprint of some candidate `k`, and every differing candidate before `k` is strictly farther (first minimum wins) |
| `Observation.TamperDetected` | tests/test_witness.py:53-67 | a record whose anchor has any one character replaced by a different one (the test uses index 32) is unequal to a fresh observation of the same inputs |
| `Aggregate.Pad` | orewave.py:21 | an odd list becomes even by appending a copy of its last element; an even list is unchanged |
| `Aggregate.PairUp` | orewave.py:22 | the comprehension halves the list, and element `i` is `dual_hash` of elements `2i` and `2i+1` joined |
| `Aggregate.Round` | orewave.py:21-22 | one round yields `ceil(n/2)` elements; element `i` joins elements `2i` and `2i+1`, with the last element standing in for the missing partner |
| `Aggregate.Fold` | orewave.py:20-23 | repeating rounds ends on one value, and that value is a fingerprint whenever at least one round ran |
| `Aggregate.RootOf` | orewave.py:17-23 | the root of any claim list is a fingerprint |
| `Aggregate.Root` | orewave.py:17-23 | the `while` loop (pad in place, rebind to the pair digests, continue while more than one remains) computes exactly `RootOf` and returns a fingerprint |
| `Aggregate.RootEmpty` | orewave.py:18 | `root([])` is `dual_hash(b'')`, the same as the digest of the empty text |
| `Aggregate.RootSingle` | orewave.py:19-23 | `root([c])` is the leaf fingerprint of `c` |
| `Aggregate.RootPair` | orewave.py:20-23 | `root([a, b]) == dual_hash(ha + hb)` |
| `Aggregate.RootThree` | orewave.py:20-23 | `root([a, b, c]) == dual_hash(dual_hash(ha + hb) + dual_hash(hc + hc))`: the third leaf is paired with itself |
| `Aggregate.FoldPaddingAmbiguity` | orewave.py:21-22 | for an odd list of three or more fingerprints, appending a copy of the last one does not change the fold |
| `Aggregate.RootPaddingAmbiguity` | orewave.py:17-23 | with an odd number (three or more) of claims, repeating the last claim leaves the root unchanged |

## Left out

- The command-line block (orewave.py:25-29): argument parsing, file reads, `json.load`, printing and exit codes, including the `verify` comparison. It is I/O around the core.
- The SHA-256 and BLAKE3 algorithms (orewave.py:7-8) are foreign library code. They are parameters that promise 64 lower-case hex characters and nothing more.
- The optional import (orewave.py:2-3) is runtime detection. It is the `blake3` field of `Hashers`, fixed for all calls.
- `json.dumps(..., sort_keys=True)` is the parameter `dumps`. Its key sorting and separators are not modelled. Neither is the `TypeError` it raises for values it cannot serialise: a claim here is any value of the type `dumps` accepts.
- A Python string holding a lone surrogate makes `str.encode()` raise. A Dafny `char` is a Unicode scalar value, so such strings cannot be written in the model.
- Order sensitivity of `root` depends on the digests being collision-free. An opaque hash function does not guarantee that, so it is not stated.
- Determinism and "no files created" (tests/test_witness.py:8-23, 45-50) say nothing about a model whose operations are mathematical functions without I/O.
- Aggregate.Root: the pair comprehension at orewave.py:22 is the function `PairUp`, called from the loop. The loop does not build that list element by element.
