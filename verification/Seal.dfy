/** Sealed snapshot manifests (crates/domain/src/snapshot.rs).

    SHA-256 and the manifest's JSON form are parameters: any function to 32 bytes, and
    any canonical form that parsing inverts. Texts are their UTF-8 bytes. */
module SealModel {
  import opened Prelude

  type Byte = b: int | 0 <= b < 256 witness 0
  type Bytes = seq<Byte>
  type Digest = d: Bytes | |d| == 32 witness seq(32, _ => 0)

  datatype Primitives<!M(!new,==)> = Primitives(hash: Bytes -> Digest, canonical: M -> Bytes, parse: Bytes -> Option<M>) {
    /** Parsing gives back what was serialized. */
    ghost predicate Inverts() { forall m: M :: parse(canonical(m)) == Some(m) }
  }

  // ---------------------------------------------------------------- bits of a byte

  function XorBits(a: nat, b: nat, n: nat): (r: nat)
    ensures r < Pow2(n)
  {
    if n == 0 then 0 else 2 * XorBits(a / 2, b / 2, n - 1) + if a % 2 == b % 2 then 0 else 1
  }

  function OrBits(a: nat, b: nat, n: nat): (r: nat)
    ensures r < Pow2(n)
  {
    if n == 0 then 0 else 2 * OrBits(a / 2, b / 2, n - 1) + if a % 2 == 1 || b % 2 == 1 then 1 else 0
  }

  function Xor(a: Byte, b: Byte): Byte {
    assert Pow2(8) == 256;
    XorBits(a, b, 8)
  }

  function Or(a: Byte, b: Byte): Byte {
    assert Pow2(8) == 256;
    OrBits(a, b, 8)
  }

  lemma {:induction false} XorIsZeroWhenEqual(a: nat, b: nat, n: nat)
    requires a < Pow2(n) && b < Pow2(n)
    ensures XorBits(a, b, n) == 0 <==> a == b
  {
    if n > 0 {
      XorIsZeroWhenEqual(a / 2, b / 2, n - 1);
    }
  }

  lemma {:induction false} OrIsZeroWhenBothAre(a: nat, b: nat, n: nat)
    requires a < Pow2(n) && b < Pow2(n)
    ensures OrBits(a, b, n) == 0 <==> a == 0 && b == 0
  {
    if n > 0 {
      OrIsZeroWhenBothAre(a / 2, b / 2, n - 1);
    }
  }

  /** The bit of weight 2^i. */
  function Bit(a: nat, i: nat): nat {
    if i == 0 then a % 2 else Bit(a / 2, i - 1)
  }

  lemma HalvedQuotient(a: nat, p: nat)
    requires p >= 1
    ensures a / (2 * p) == a / 2 / p
  {
    var q, r := a / 2 / p, a / 2 % p;
    assert a == 2 * (p * q + r) + a % 2;
    assert a == (2 * p) * q + (2 * r + a % 2);
    DivisionIsUnique(a, 2 * p, q, 2 * r + a % 2);
  }

  lemma {:induction false} BitHasWeight(a: nat, i: nat)
    ensures Bit(a, i) == a / Pow2(i) % 2
  {
    if i > 0 {
      BitHasWeight(a / 2, i - 1);
      HalvedQuotient(a, Pow2(i - 1));
    }
  }

  lemma XorByHalves(a: nat, b: nat, n: nat)
    requires n > 0
    ensures XorBits(a, b, n) / 2 == XorBits(a / 2, b / 2, n - 1) && XorBits(a, b, n) % 2 == (a % 2 + b % 2) % 2
  {
  }

  lemma OrByHalves(a: nat, b: nat, n: nat)
    requires n > 0
    ensures OrBits(a, b, n) / 2 == OrBits(a / 2, b / 2, n - 1) && OrBits(a, b, n) % 2 == if a % 2 + b % 2 > 0 then 1 else 0
  {
  }

  lemma {:induction false} BitOfXor(a: nat, b: nat, n: nat, i: nat)
    requires i < n
    ensures Bit(XorBits(a, b, n), i) == (Bit(a, i) + Bit(b, i)) % 2
  {
    XorByHalves(a, b, n);
    if i > 0 {
      BitOfXor(a / 2, b / 2, n - 1, i - 1);
    }
  }

  lemma {:induction false} BitOfOr(a: nat, b: nat, n: nat, i: nat)
    requires i < n
    ensures Bit(OrBits(a, b, n), i) == if Bit(a, i) + Bit(b, i) > 0 then 1 else 0
  {
    OrByHalves(a, b, n);
    if i > 0 {
      BitOfOr(a / 2, b / 2, n - 1, i - 1);
    }
  }

  /** Bit by bit, xor is the sum modulo two and or is set when either is. */
  lemma BitsExactly(a: nat, b: nat, n: nat, i: nat)
    requires i < n
    ensures XorBits(a, b, n) / Pow2(i) % 2 == (a / Pow2(i) % 2 + b / Pow2(i) % 2) % 2
    ensures OrBits(a, b, n) / Pow2(i) % 2 == if a / Pow2(i) % 2 == 1 || b / Pow2(i) % 2 == 1 then 1 else 0
  {
    BitHasWeight(a, i);
    BitHasWeight(b, i);
    BitHasWeight(XorBits(a, b, n), i);
    BitHasWeight(OrBits(a, b, n), i);
    BitOfXor(a, b, n, i);
    BitOfOr(a, b, n, i);
  }

  /** Xor with the same number twice gives back what was there. */
  lemma {:induction false} XorUndoesItself(a: nat, b: nat, n: nat)
    requires b < Pow2(n)
    ensures XorBits(a, XorBits(a, b, n), n) == b
  {
    if n > 0 {
      XorUndoesItself(a / 2, b / 2, n - 1);
    }
  }

  lemma {:induction false} XorWithZero(a: nat, n: nat)
    requires a < Pow2(n)
    ensures XorBits(a, 0, n) == a
  {
    if n > 0 {
      XorWithZero(a / 2, n - 1);
    }
  }

  lemma AccumulatesDifference(acc: Byte, x: Byte, y: Byte)
    ensures Or(acc, Xor(x, y)) == 0 <==> acc == 0 && x == y
  {
    assert Pow2(8) == 256;
    XorIsZeroWhenEqual(x, y, 8);
    OrIsZeroWhenBothAre(acc, Xor(x, y), 8);
  }

  /** Folds every position into one accumulator and decides equality. */
  method ConstantTimeEq(a: Bytes, b: Bytes) returns (same: bool)
    ensures same <==> a == b
  {
    if |a| != |b| {
      return false;
    }
    var acc: Byte := 0;
    for i := 0 to |a|
      invariant acc == 0 <==> a[..i] == b[..i]
    {
      AccumulatesDifference(acc, a[i], b[i]);
      assert a[..i + 1] == a[..i] + [a[i]] && b[..i + 1] == b[..i] + [b[i]];
      acc := Or(acc, Xor(a[i], b[i]));
    }
    assert a[..|a|] == a && b[..|b|] == b;
    return acc == 0;
  }

  // ---------------------------------------------------------------- HMAC

  const BLOCK := 64

  /** The key of section 2 of RFC 2104: hashed when longer than a block, then padded with
      zeros to a block. */
  function BlockKey(hash: Bytes -> Digest, key: Bytes): (k: Bytes)
    ensures |k| == BLOCK
  {
    var k: Bytes := if |key| > BLOCK then hash(key) else key;
    k + seq(BLOCK - |k|, _ => 0)
  }

  function XorEach(k: Bytes, pad: Byte): (r: Bytes)
    ensures |r| == |k|
  {
    seq(|k|, i requires 0 <= i < |k| => Xor(pad, k[i]))
  }

  /** H(K xor opad, H(K xor ipad, text)), section 2 of RFC 2104. */
  function Hmac(hash: Bytes -> Digest, key: Bytes, message: Bytes): Digest {
    var k := BlockKey(hash, key);
    hash(XorEach(k, 0x5c) + hash(XorEach(k, 0x36) + message))
  }

  /** The block the key is copied into. */
  method CopyKey(hash: Bytes -> Digest, key: Bytes) returns (k: array<Byte>)
    ensures fresh(k) && k.Length == BLOCK && k[..] == BlockKey(hash, key)
  {
    k := new Byte[BLOCK](_ => 0);
    var start: Bytes := if |key| > BLOCK then hash(key) else key;
    for i := 0 to |start|
      invariant k[..] == start[..i] + seq(BLOCK - i, _ => 0)
    {
      k[i] := start[i];
    }
  }

  method HmacSha256(hash: Bytes -> Digest, key: Bytes, message: Bytes) returns (mac: Digest)
    ensures mac == Hmac(hash, key, message)
  {
    var k := CopyKey(hash, key);
    ghost var padded := k[..];
    var ipad, opad := new Byte[BLOCK](_ => 0x36), new Byte[BLOCK](_ => 0x5c);
    for i := 0 to BLOCK
      invariant k[..] == padded
      invariant forall j :: 0 <= j < i ==> ipad[j] == Xor(0x36, padded[j]) && opad[j] == Xor(0x5c, padded[j])
      invariant forall j :: i <= j < BLOCK ==> ipad[j] == 0x36 && opad[j] == 0x5c
    {
      ipad[i], opad[i] := Xor(ipad[i], k[i]), Xor(opad[i], k[i]);
    }
    assert ipad[..] == XorEach(padded, 0x36) && opad[..] == XorEach(padded, 0x5c);
    var inner := hash(ipad[..] + message);
    mac := hash(opad[..] + inner);
  }

  lemma PadIsUndone(k: Bytes, pad: Byte)
    ensures XorEach(XorEach(k, pad), pad) == k
  {
    assert Pow2(8) == 256;
    forall i | 0 <= i < |k| ensures Xor(pad, Xor(pad, k[i])) == k[i] {
      XorUndoesItself(pad, k[i], 8);
    }
  }

  /** The inner and the outer block each determine the padded key: different keys give
      different blocks. */
  lemma BlocksDetermineTheKey(a: Bytes, b: Bytes, pad: Byte)
    ensures XorEach(a, pad) == XorEach(b, pad) <==> a == b
  {
    PadIsUndone(a, pad);
    PadIsUndone(b, pad);
  }

  lemma PadOfZeros(pad: Byte)
    ensures XorEach(seq(64, _ => 0), pad) == seq(64, _ => pad)
  {
    assert Pow2(8) == 256;
    XorWithZero(pad, 8);
  }

  /** Keys of RFC 2104: the empty key gives the bare pads, a zero byte behind a key shorter than
      a block changes nothing, and a key longer than a block counts as its hash. */
  lemma HmacKeys(hash: Bytes -> Digest, key: Bytes, message: Bytes)
    ensures Hmac(hash, [], message) == hash(seq(64, _ => 0x5c) + hash(seq(64, _ => 0x36) + message))
    ensures |key| < 64 ==> Hmac(hash, key + [0], message) == Hmac(hash, key, message)
    ensures |key| > 64 ==> Hmac(hash, key, message) == Hmac(hash, hash(key), message)
  {
    PadOfZeros(0x5c);
    PadOfZeros(0x36);
    assert BlockKey(hash, []) == seq(64, _ => 0);
    if |key| < 64 {
      assert BlockKey(hash, key + [0]) == BlockKey(hash, key);
    }
    if |key| > 64 {
      assert BlockKey(hash, hash(key)) == BlockKey(hash, key);
    }
  }

  // ---------------------------------------------------------------- hexadecimal

  function HexDigit(n: nat): Byte
    requires n < 16
  {
    if n < 10 then 48 + n else 87 + n
  }

  function Nibble(c: Byte): (r: Option<nat>)
    ensures r.Some? ==> r.value < 16
  {
    if 48 <= c <= 57 then Some(c - 48)
    else if 97 <= c <= 102 then Some(c - 87)
    else if 65 <= c <= 70 then Some(c - 55)
    else None
  }

  function HexEncode(b: Bytes): (t: Bytes)
    ensures |t| == 2 * |b|
  {
    if b == [] then [] else [HexDigit(b[0] / 16), HexDigit(b[0] % 16)] + HexEncode(b[1..])
  }

  function HexDecode(t: Bytes): Option<Bytes> {
    if t == [] then Some([])
    else if |t| == 1 then None
    else
      match (Nibble(t[0]), Nibble(t[1]), HexDecode(t[2..]))
      case (Some(hi), Some(lo), Some(rest)) => Some([16 * hi + lo] + rest)
      case _ => None
  }

  function LowerDigit(c: Byte): Byte {
    if 65 <= c <= 70 then c + 32 else c
  }

  /** The text with the hex digits A to F in lower case. */
  function Lower(t: Bytes): (r: Bytes)
    ensures |r| == |t|
  {
    seq(|t|, i requires 0 <= i < |t| => LowerDigit(t[i]))
  }

  lemma DigitDecodes(c: Byte, n: nat)
    requires n < 16
    ensures Nibble(c) == Some(n) <==> LowerDigit(c) == HexDigit(n)
  {
  }

  /** The digits in ASCII, and the letters that are read besides them. */
  lemma DigitsAreAscii(n: nat)
    requires n < 16
    ensures HexDigit(n) == "0123456789abcdef"[n] as int && Nibble("0123456789ABCDEF"[n] as int) == Some(n)
  {
  }

  /** A text decodes to `b` exactly when it is the encoding of `b` up to letter case. */
  lemma {:induction false} HexDecodesExactly(t: Bytes, b: Bytes)
    ensures HexDecode(t) == Some(b) <==> Lower(t) == HexEncode(b)
    decreases |t|
  {
    if |t| >= 2 && b != [] {
      HexDecodesExactly(t[2..], b[1..]);
      DigitDecodes(t[0], b[0] / 16);
      DigitDecodes(t[1], b[0] % 16);
      assert Lower(t) == [LowerDigit(t[0]), LowerDigit(t[1])] + Lower(t[2..]);
      HeadsAndTails([LowerDigit(t[0]), LowerDigit(t[1])], Lower(t[2..]),
                    [HexDigit(b[0] / 16), HexDigit(b[0] % 16)], HexEncode(b[1..]));
      DecodeStep(t, b);
    }
  }

  lemma HeadsAndTails(a: Bytes, s: Bytes, b: Bytes, t: Bytes)
    requires |a| == |b|
    ensures a + s == b + t <==> a == b && s == t
  {
    if a + s == b + t {
      assert (a + s)[..|a|] == a && (b + t)[..|b|] == b;
      assert (a + s)[|a|..] == s && (b + t)[|b|..] == t;
    }
  }

  lemma DecodeStep(t: Bytes, b: Bytes)
    requires |t| >= 2 && b != []
    ensures HexDecode(t) == Some(b) <==>
      Nibble(t[0]) == Some(b[0] / 16) && Nibble(t[1]) == Some(b[0] % 16) && HexDecode(t[2..]) == Some(b[1..])
  {
    match (Nibble(t[0]), Nibble(t[1]), HexDecode(t[2..])) {
      case (Some(hi), Some(lo), Some(rest)) =>
        HeadsAndTails([16 * hi + lo], rest, [b[0]], b[1..]);
        assert [b[0]] + b[1..] == b;
      case _ =>
    }
  }

  // ---------------------------------------------------------------- keys and messages

  function Ascii(s: string): (b: Bytes)
    ensures |b| == |s|
  {
    seq(|s|, i requires 0 <= i < |s| => s[i] as int % 256)
  }

  const MANIFEST_LABEL := Ascii("tachyon-serverless/snapshot-manifest/v1") + [0]
  const KEY_ID_LABEL := Ascii("tachyon-serverless/snapshot-signing-key-id/v1") + [0]

  datatype SigningKey = SigningKey(key: Digest, id: Bytes)

  function FromBytes(hash: Bytes -> Digest, key: Digest): SigningKey {
    SigningKey(key, Ascii("s1-") + HexEncode(hash(KEY_ID_LABEL + key))[..16])
  }

  function SignedMessage(keyId: Bytes, canonical: Bytes): Bytes {
    MANIFEST_LABEL + keyId + [0] + canonical
  }

  lemma {:induction false} HexHasNoNul(b: Bytes)
    ensures 0 !in HexEncode(b)
  {
    if b != [] {
      HexHasNoNul(b[1..]);
    }
  }

  lemma KeyIdHasNoNul(hash: Bytes -> Digest, key: Digest)
    ensures 0 !in FromBytes(hash, key).id
  {
    HexHasNoNul(hash(KEY_ID_LABEL + key));
  }

  lemma {:induction false} PrefixEncodes(b: Bytes, n: nat)
    requires n <= |b|
    ensures HexEncode(b)[..2 * n] == HexEncode(b[..n])
  {
    if n > 0 {
      PrefixEncodes(b[1..], n - 1);
      assert b[..n][1..] == b[1..][..n - 1];
      assert HexEncode(b)[..2 * n] == [HexDigit(b[0] / 16), HexDigit(b[0] % 16)] + HexEncode(b[1..])[..2 * (n - 1)];
    }
  }

  /** The id of a key is `s1-` and the sixteen digits of the first eight bytes of its hash. */
  lemma KeyIdShows(hash: Bytes -> Digest, key: Digest)
    ensures FromBytes(hash, key).key == key
    ensures FromBytes(hash, key).id == Ascii("s1-") + HexEncode(hash(KEY_ID_LABEL + key)[..8])
    ensures |FromBytes(hash, key).id| == 19
  {
    PrefixEncodes(hash(KEY_ID_LABEL + key), 8);
  }

  /** What is signed is never what a key id is computed from. */
  lemma DomainsAreSeparate(keyId: Bytes, canonical: Bytes, key: Bytes)
    ensures SignedMessage(keyId, canonical) != KEY_ID_LABEL + key
  {
    assert SignedMessage(keyId, canonical)[28] == 'm' as int;
    assert (KEY_ID_LABEL + key)[28] == 's' as int;
  }

  lemma FirstZeroDecides(a: Bytes, s: Bytes, b: Bytes, t: Bytes)
    requires 0 !in a && 0 !in b && a + [0] + s == b + [0] + t
    ensures a == b && s == t
  {
    var m := a + [0] + s;
    assert m[|a|] == 0 && m[|b|] == 0;
    assert forall i :: 0 <= i < |a| ==> m[i] == a[i];
    assert forall i :: 0 <= i < |b| ==> m[i] == b[i];
    assert |a| == |b|;
    assert m[..|a|] == a && m[..|b|] == b;
    assert m[|a| + 1..] == s && m[|b| + 1..] == t;
  }

  /** What is signed determines the key id and the manifest bytes, for key ids without a
      zero byte, which the ids of signing keys are. */
  lemma SignedMessageIsInjective(k1: Bytes, c1: Bytes, k2: Bytes, c2: Bytes)
    requires 0 !in k1 && 0 !in k2
    ensures SignedMessage(k1, c1) == SignedMessage(k2, c2) <==> k1 == k2 && c1 == c2
  {
    if SignedMessage(k1, c1) == SignedMessage(k2, c2) {
      var n := |MANIFEST_LABEL|;
      assert SignedMessage(k1, c1)[n..] == k1 + [0] + c1;
      assert SignedMessage(k2, c2)[n..] == k2 + [0] + c2;
      FirstZeroDecides(k1, c1, k2, c2);
    }
  }

  // ---------------------------------------------------------------- seal and verify

  datatype SealedManifest = SealedManifest(manifest: Bytes, digest: Digest, keyId: Bytes, signature: Bytes)

  datatype ManifestError = KeyMismatch | BadSignature | DigestMismatch | Malformed | NotCanonical

  function Mac(hash: Bytes -> Digest, key: SigningKey, text: Bytes): Digest {
    Hmac(hash, key.key, SignedMessage(key.id, text))
  }

  function Sealed<M(!new,==)>(p: Primitives<M>, key: SigningKey, m: M): SealedManifest {
    var text := p.canonical(m);
    SealedManifest(text, p.hash(text), key.id, HexEncode(Mac(p.hash, key, text)))
  }

  /** What a sealed manifest holds: its canonical bytes, their hash, the id of the key, and the
      digits of the HMAC under the key of label, id, zero byte and bytes. */
  lemma SealsExactly<M(!new)>(p: Primitives<M>, key: SigningKey, m: M)
    ensures
      var s := Sealed(p, key, m);
      && s.manifest == p.canonical(m) && s.digest == p.hash(p.canonical(m)) && s.keyId == key.id
      && s.signature == HexEncode(Hmac(p.hash, key.key,
           Ascii("tachyon-serverless/snapshot-manifest/v1") + [0] + key.id + [0] + p.canonical(m)))
  {
  }

  method Seal<M(!new,==)>(p: Primitives<M>, key: SigningKey, m: M) returns (s: SealedManifest)
    ensures s == Sealed(p, key, m)
  {
    var canonical := p.canonical(m);
    var digest := p.hash(canonical);
    var mac := HmacSha256(p.hash, key.key, SignedMessage(key.id, canonical));
    s := SealedManifest(canonical, digest, key.id, HexEncode(mac));
  }

  /** The same sealed manifest but for the letter case of the signature. */
  predicate SameUpToCase(s: SealedManifest, t: SealedManifest) {
    s.manifest == t.manifest && s.digest == t.digest && s.keyId == t.keyId && Lower(s.signature) == t.signature
  }

  /** The key's id and its signature of the manifest text. */
  predicate Signed(hash: Bytes -> Digest, key: SigningKey, s: SealedManifest) {
    s.keyId == key.id && Lower(s.signature) == HexEncode(Mac(hash, key, s.manifest))
  }

  /** Accepts exactly the sealed form of a manifest, up to the letter case of the
      signature, and gives back that manifest. */
  method Verify<M(!new,==)>(p: Primitives<M>, key: SigningKey, s: SealedManifest)
    returns (r: Result<M, ManifestError>)
    requires p.Inverts()
    ensures forall m: M :: r == Success(m) <==> SameUpToCase(s, Sealed(p, key, m))
    ensures r == Failure(KeyMismatch) <==> s.keyId != key.id
    ensures r == Failure(BadSignature) <==>
      s.keyId == key.id && Lower(s.signature) != HexEncode(Mac(p.hash, key, s.manifest))
    ensures r == Failure(DigestMismatch) <==> Signed(p.hash, key, s) && p.hash(s.manifest) != s.digest
    ensures r == Failure(Malformed) <==>
      Signed(p.hash, key, s) && p.hash(s.manifest) == s.digest && p.parse(s.manifest).None?
    ensures r == Failure(NotCanonical) <==>
      && Signed(p.hash, key, s) && p.hash(s.manifest) == s.digest && p.parse(s.manifest).Some?
      && forall m: M :: p.canonical(m) != s.manifest
  {
    if s.keyId != key.id {
      return Failure(KeyMismatch);
    }
    var expected := HmacSha256(p.hash, key.key, SignedMessage(key.id, s.manifest));
    HexDecodesExactly(s.signature, expected);
    var given := HexDecode(s.signature);
    if given.None? {
      return Failure(BadSignature);
    }
    var same := ConstantTimeEq(expected, given.value);
    if !same {
      return Failure(BadSignature);
    }
    if p.hash(s.manifest) != s.digest {
      return Failure(DigestMismatch);
    }
    var parsed := p.parse(s.manifest);
    if parsed.None? {
      return Failure(Malformed);
    }
    if p.canonical(parsed.value) != s.manifest {
      return Failure(NotCanonical);
    }
    return Success(parsed.value);
  }

  /** Sealing then verifying with the same key gives the manifest back. */
  method SealThenVerify<M(!new,==)>(p: Primitives<M>, key: SigningKey, m: M)
    returns (r: Result<M, ManifestError>)
    requires p.Inverts()
    ensures r == Success(m)
  {
    var s := Seal(p, key, m);
    EncodingIsLower(Mac(p.hash, key, p.canonical(m)));
    r := Verify(p, key, s);
  }

  lemma {:induction false} EncodingIsLower(b: Bytes)
    ensures Lower(HexEncode(b)) == HexEncode(b)
  {
    if b != [] {
      EncodingIsLower(b[1..]);
      var t := HexEncode(b);
      forall i | 0 <= i < |t| ensures LowerDigit(t[i]) == t[i] {
        if i >= 2 {
          assert t[i] == HexEncode(b[1..])[i - 2];
          assert Lower(HexEncode(b[1..]))[i - 2] == LowerDigit(HexEncode(b[1..])[i - 2]);
        }
      }
    }
  }
}
