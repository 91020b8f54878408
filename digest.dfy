/**
 * The digest engine: `dual_hash` and the byte encoding it hashes.
 *
 * A fingerprint is `"<sha256-hex>:<second-hex>"`. The second half is the
 * BLAKE3 digest when that algorithm is available and a copy of the SHA-256
 * half otherwise. The two digest algorithms are library code and are not
 * modelled: a `Hashers` value carries them as functions whose results are
 * 64 lower-case hexadecimal characters. Whether BLAKE3 could be imported is
 * the `blake3` field being `Some` or `None`, fixed once for every call.
 */
module Digest {
  import opened Wrappers

  newtype byte = b: int | 0 <= b < 0x100

  // ---------------------------------------------------------------------
  // UTF-8, as `str.encode()` produces it
  // ---------------------------------------------------------------------

  /** The UTF-8 encoding of one Unicode scalar value. */
  function EncodeChar(c: char): (bs: seq<byte>)
    ensures 1 <= |bs| <= 4
    ensures |bs| == 1 <==> c as int < 0x80
  {
    var n := c as int;
    if n < 0x80 then
      [n as byte]
    else if n < 0x800 then
      [(0xC0 + n / 0x40) as byte, (0x80 + n % 0x40) as byte]
    else if n < 0x1_0000 then
      [(0xE0 + n / 0x1000) as byte, (0x80 + n / 0x40 % 0x40) as byte, (0x80 + n % 0x40) as byte]
    else
      [(0xF0 + n / 0x4_0000) as byte, (0x80 + n / 0x1000 % 0x40) as byte,
       (0x80 + n / 0x40 % 0x40) as byte, (0x80 + n % 0x40) as byte]
  }

  /** The UTF-8 encoding of a string, character by character. */
  function Utf8(s: string): (bs: seq<byte>)
    ensures |bs| >= |s|
  {
    if s == [] then [] else EncodeChar(s[0]) + Utf8(s[1..])
  }

  /** How many bytes a sequence starting with `lead` occupies; 0 for a byte no character starts with. */
  function SequenceLength(lead: byte): nat {
    if lead < 0x80 then 1
    else if 0xC0 <= lead < 0xE0 then 2
    else if 0xE0 <= lead < 0xF0 then 3
    else if 0xF0 <= lead < 0xF8 then 4
    else 0
  }

  predicate IsContinuation(b: byte) {
    0x80 <= b < 0xC0
  }

  /** The scalar value numbered `n`, if there is one. */
  function ToChar(n: int): Option<char> {
    if 0 <= n < 0xD800 || 0xE000 <= n < 0x11_0000 then Some(n as char) else None
  }

  predicate AllContinuations(bs: seq<byte>) {
    forall i :: 0 <= i < |bs| ==> IsContinuation(bs[i])
  }

  /** The six payload bits of a continuation byte. */
  function Payload(b: byte): int {
    b as int - 0x80
  }

  /** The number a one- to four-byte sequence stands for, read from its lead and payload bits. */
  function CodePoint(bs: seq<byte>): int
    requires 1 <= |bs| <= 4
  {
    var lead := bs[0] as int;
    if |bs| == 1 then lead
    else if |bs| == 2 then (lead - 0xC0) * 0x40 + Payload(bs[1])
    else if |bs| == 3 then (lead - 0xE0) * 0x1000 + Payload(bs[1]) * 0x40 + Payload(bs[2])
    else (lead - 0xF0) * 0x4_0000 + Payload(bs[1]) * 0x1000 + Payload(bs[2]) * 0x40 + Payload(bs[3])
  }

  /** The smallest code point that needs `n` bytes; a smaller one in `n` bytes is an overlong form. */
  function ShortestFrom(n: nat): int {
    if n <= 1 then 0 else if n == 2 then 0x80 else if n == 3 then 0x800 else 0x1_0000
  }

  /** Decodes exactly one character occupying all of `bs`, rejecting overlong forms as Python's `bytes.decode()` does. */
  function DecodeChar(bs: seq<byte>): Option<char>
    requires 1 <= |bs| <= 4
  {
    if SequenceLength(bs[0]) != |bs| || !AllContinuations(bs[1..]) || CodePoint(bs) < ShortestFrom(|bs|) then None
    else ToChar(CodePoint(bs))
  }

  /**
   * A strict UTF-8 decoder: it accepts only shortest forms, so the round
   * trip below pins `Utf8` to the bytes `str.encode()` emits.
   */
  function DecodeUtf8(bs: seq<byte>): Option<string>
    decreases |bs|
  {
    if bs == [] then Some([])
    else
      var n := SequenceLength(bs[0]);
      if n == 0 || |bs| < n then None
      else
        match DecodeChar(bs[..n])
        case None => None
        case Some(c) =>
          match DecodeUtf8(bs[n..])
          case None => None
          case Some(rest) => Some([c] + rest)
  }

  lemma EncodeTwo(n: int)
    requires 0x80 <= n < 0x800
    ensures var q, r := n / 0x40, n % 0x40;
      0xC0 <= 0xC0 + q < 0xE0 && 0 <= r < 0x40 && q * 0x40 + r == n
  {
  }

  lemma EncodeThree(n: int)
    requires 0x800 <= n < 0x1_0000
    ensures var q, m, r := n / 0x1000, n / 0x40 % 0x40, n % 0x40;
      0xE0 <= 0xE0 + q < 0xF0 && 0 <= m < 0x40 && 0 <= r < 0x40 && q * 0x1000 + m * 0x40 + r == n
  {
  }

  lemma EncodeFour(n: int)
    requires 0x1_0000 <= n < 0x11_0000
    ensures var q, k, m, r := n / 0x4_0000, n / 0x1000 % 0x40, n / 0x40 % 0x40, n % 0x40;
      0xF0 <= 0xF0 + q < 0xF8 && 0 <= k < 0x40 && 0 <= m < 0x40 && 0 <= r < 0x40
      && q * 0x4_0000 + k * 0x1000 + m * 0x40 + r == n
  {
    var q, k := n / 0x4_0000, n / 0x1000 % 0x40;
    assert n / 0x1000 == q * 0x40 + k;
    assert n / 0x40 == (n / 0x1000) * 0x40 + n / 0x40 % 0x40;
  }

  /** Each character's encoding starts with a lead byte announcing its length and decodes back to it. */
  lemma EncodeCharRoundTrip(c: char)
    ensures SequenceLength(EncodeChar(c)[0]) == |EncodeChar(c)|
    ensures DecodeChar(EncodeChar(c)) == Some(c)
  {
    var n := c as int;
    var bs := EncodeChar(c);
    if n < 0x80 {
    } else if n < 0x800 {
      EncodeTwo(n);
      assert CodePoint(bs) == n;
    } else if n < 0x1_0000 {
      EncodeThree(n);
      assert CodePoint(bs) == n;
    } else {
      EncodeFour(n);
      assert CodePoint(bs) == n;
    }
  }

  /** Overlong forms are rejected: two bytes for U+0000, four bytes for U+00E9. */
  lemma OverlongRejected()
    ensures DecodeUtf8([0xC0, 0x80]) == None
    ensures DecodeUtf8([0xF0, 0x80, 0x83, 0xA9]) == None
  {
    assert CodePoint([0xC0, 0x80]) == 0;
    assert CodePoint([0xF0, 0x80, 0x83, 0xA9]) == 0xE9;
  }

  /** Decoding the encoding of any string gives the string back, so distinct texts hash distinct bytes. */
  lemma {:induction false} Utf8RoundTrip(s: string)
    ensures DecodeUtf8(Utf8(s)) == Some(s)
  {
    if s != [] {
      var head := EncodeChar(s[0]);
      var bs := Utf8(s);
      EncodeCharRoundTrip(s[0]);
      assert bs == head + Utf8(s[1..]);
      assert bs[0] == head[0];
      assert bs[..|head|] == head;
      assert bs[|head|..] == Utf8(s[1..]);
      Utf8RoundTrip(s[1..]);
      assert [s[0]] + s[1..] == s;
    }
  }

  /** Encoding distributes over concatenation, as it does for Python's `str.encode()`. */
  lemma {:induction false} Utf8Append(a: string, b: string)
    ensures Utf8(a + b) == Utf8(a) + Utf8(b)
  {
    if a == [] {
      assert a + b == b;
    } else {
      assert (a + b)[0] == a[0];
      assert (a + b)[1..] == a[1..] + b;
      assert Utf8(a + b) == EncodeChar(a[0]) + Utf8(a[1..] + b);
      Utf8Append(a[1..], b);
      assert Utf8(a) == EncodeChar(a[0]) + Utf8(a[1..]);
      assert EncodeChar(a[0]) + (Utf8(a[1..]) + Utf8(b)) == (EncodeChar(a[0]) + Utf8(a[1..])) + Utf8(b);
    }
  }

  /** ASCII text (as hexadecimal digits and ':' are) encodes to one byte per character, its code. */
  lemma {:induction false} Utf8Ascii(s: string)
    requires forall i :: 0 <= i < |s| ==> s[i] as int < 0x80
    ensures |Utf8(s)| == |s|
    ensures forall i :: 0 <= i < |s| ==> Utf8(s)[i] as int == s[i] as int
  {
    if s != [] {
      Utf8Ascii(s[1..]);
      assert Utf8(s) == [s[0] as int as byte] + Utf8(s[1..]);
    }
  }

  // ---------------------------------------------------------------------
  // Hex digests and the fingerprint format
  // ---------------------------------------------------------------------

  predicate IsHexDigit(c: char) {
    '0' <= c <= '9' || 'a' <= c <= 'f'
  }

  /** What `hexdigest()` of a 256-bit digest returns: 64 lower-case hexadecimal characters. */
  predicate IsHex64(s: string) {
    |s| == 64 && forall i :: 0 <= i < |s| ==> IsHexDigit(s[i])
  }

  type Hex64 = s: string | IsHex64(s)
    witness seq(64, _ => '0')

  /**
   * The two digest algorithms. `blake3` is `None` when the optional
   * `blake3` package could not be imported.
   */
  datatype Hashers = Hashers(sha256: seq<byte> -> Hex64, blake3: Option<seq<byte> -> Hex64>)

  /** What `dual_hash` accepts: text, which it encodes, or bytes, which it hashes as they are. */
  datatype Data = Text(s: string) | Raw(bytes: seq<byte>)

  /** The bytes `dual_hash` hashes: text is encoded, bytes are taken as they are. */
  function Encode(d: Data): (b: seq<byte>)
    ensures d.Text? ==> DecodeUtf8(b) == Some(d.s)
    ensures d.Raw? ==> b == d.bytes
  {
    match d
    case Text(s) => Utf8RoundTrip(s); Utf8(s)
    case Raw(b) => b
  }

  /** `s` has the fingerprint format: a hex half, one ':', a hex half. */
  predicate IsFingerprint(s: string) {
    |s| == 129 && IsHex64(s[..64]) && s[64] == ':' && IsHex64(s[65..])
  }

  /** Python's `s.split(sep)` for a one-character separator. */
  function Split(s: string, sep: char): (parts: seq<string>)
    ensures |parts| >= 1
  {
    if s == [] then [""]
    else
      var rest := Split(s[1..], sep);
      if s[0] == sep then [""] + rest else [[s[0]] + rest[0]] + rest[1..]
  }

  lemma {:induction false} SplitNoSeparator(a: string, t: string, sep: char)
    requires sep !in a
    ensures Split(a + t, sep) == [a + Split(t, sep)[0]] + Split(t, sep)[1..]
  {
    if a == [] {
      assert a + t == t;
      assert a + Split(t, sep)[0] == Split(t, sep)[0];
      assert Split(t, sep) == [Split(t, sep)[0]] + Split(t, sep)[1..];
    } else {
      assert (a + t)[0] == a[0];
      assert (a + t)[1..] == a[1..] + t;
      SplitNoSeparator(a[1..], t, sep);
      assert [a[0]] + (a[1..] + Split(t, sep)[0]) == a + Split(t, sep)[0];
    }
  }

  /** Splitting at the separator's only occurrence gives the two sides. */
  lemma SplitOnce(a: string, b: string, sep: char)
    requires sep !in a && sep !in b
    ensures Split(a + [sep] + b, sep) == [a, b]
  {
    SplitNoSeparator(b, [], sep);
    assert b + [] == b;
    assert Split(b, sep) == [b];
    assert Split([sep] + b, sep) == [""] + Split(b, sep);
    assert a + [sep] + b == a + ([sep] + b);
    SplitNoSeparator(a, [sep] + b, sep);
    assert a + "" == a;
  }

  /**
   * A fingerprint holds exactly one ':' and splits into exactly two parts,
   * each 64 lower-case hexadecimal characters.
   */
  lemma FingerprintParts(s: string)
    requires IsFingerprint(s)
    ensures Split(s, ':') == [s[..64], s[65..]]
    ensures multiset(s)[':'] == 1
  {
    assert ':' !in s[..64] by {
      forall i | 0 <= i < 64 ensures s[..64][i] != ':' { assert IsHexDigit(s[..64][i]); }
    }
    assert ':' !in s[65..] by {
      forall i | 0 <= i < 64 ensures s[65..][i] != ':' { assert IsHexDigit(s[65..][i]); }
    }
    assert s == s[..64] + [':'] + s[65..];
    SplitOnce(s[..64], s[65..], ':');
    assert multiset(s) == multiset(s[..64]) + multiset{':'} + multiset(s[65..]);
  }

  /**
   * `dual_hash(data)`: the SHA-256 half, ':', and the BLAKE3 half or, when
   * BLAKE3 is unavailable, a second copy of the SHA-256 half.
   */
  function DualHash(h: Hashers, d: Data): (r: string)
    ensures IsFingerprint(r)
    ensures Split(r, ':') == [r[..64], r[65..]]
    ensures d.Text? ==> r[..64] == h.sha256(Utf8(d.s))
    ensures d.Raw? ==> r[..64] == h.sha256(d.bytes)
    ensures h.blake3.Some? && d.Text? ==> r[65..] == h.blake3.value(Utf8(d.s))
    ensures h.blake3.Some? && d.Raw? ==> r[65..] == h.blake3.value(d.bytes)
    ensures h.blake3.None? ==> r[65..] == r[..64]
  {
    var b := Encode(d);
    var sha := h.sha256(b);
    var second := match h.blake3 case Some(blake3) => blake3(b) case None => sha;
    var r := sha + ":" + second;
    assert r[..64] == sha && r[65..] == second;
    FingerprintParts(r);
    r
  }

  /** Text and bytes are hashed alike once encoded: `dual_hash('')` is `dual_hash(b'')`. */
  lemma EmptyTextIsEmptyBytes(h: Hashers)
    ensures DualHash(h, Text("")) == DualHash(h, Raw([]))
  {
  }

  /** The fingerprint of a claim: `dual_hash(json.dumps(c, sort_keys=True))`, the serialisation given as `dumps`. */
  function Fingerprint<C>(h: Hashers, dumps: C -> string, c: C): (r: string)
    ensures IsFingerprint(r)
  {
    DualHash(h, Text(dumps(c)))
  }

  /** The list comprehension that fingerprints every claim, in order. */
  function Fingerprints<C>(h: Hashers, dumps: C -> string, cs: seq<C>): (r: seq<string>)
    ensures |r| == |cs|
    ensures forall i {:trigger Fingerprint(h, dumps, cs[i])} :: 0 <= i < |cs| ==> r[i] == Fingerprint(h, dumps, cs[i])
    ensures forall x :: x in r ==> IsFingerprint(x)
  {
    if cs == [] then [] else [Fingerprint(h, dumps, cs[0])] + Fingerprints(h, dumps, cs[1..])
  }

  /** Every character of a fingerprint is ASCII. */
  lemma FingerprintIsAscii(s: string)
    requires IsFingerprint(s)
    ensures forall i :: 0 <= i < |s| ==> s[i] as int < 0x80
  {
    forall i | 0 <= i < |s| ensures s[i] as int < 0x80 {
      if i < 64 {
        assert s[i] == s[..64][i];
        assert IsHexDigit(s[..64][i]);
      } else if i > 64 {
        assert s[i] == s[65..][i - 65];
        assert IsHexDigit(s[65..][i - 65]);
      }
    }
  }

  /**
   * Joining two fingerprints, as `observe` and `root` do before hashing,
   * encodes to one byte per character: 258 bytes, each the character's code.
   */
  lemma JoinedFingerprintBytes(a: string, b: string)
    requires IsFingerprint(a) && IsFingerprint(b)
    ensures |Utf8(a + b)| == 258
    ensures forall i :: 0 <= i < |a + b| ==> Utf8(a + b)[i] as int == (a + b)[i] as int
  {
    FingerprintIsAscii(a);
    FingerprintIsAscii(b);
    forall i | 0 <= i < |a + b| ensures (a + b)[i] as int < 0x80 {
      if i < |a| {
        assert (a + b)[i] == a[i];
      } else {
        assert (a + b)[i] == b[i - |a|];
      }
    }
    Utf8Ascii(a + b);
  }
}
