/**
 `pbkdf2SHA256` against section 5.2 of RFC 8018, for any pseudorandom function
 with 32-byte results.
 */
module Pbkdf2 {

  type Byte = bv8
  type Bytes = seq<Byte>

  const HASH_LEN: nat := 32

  /** HMAC-SHA-256: key and message to 32 bytes. */
  ghost predicate IsPrf(prf: (Bytes, Bytes) -> Bytes) {
    forall key, message :: |prf(key, message)| == HASH_LEN
  }

  // ---------------------------------------------------------- the standard's terms

  /** INT(i): four octets, most significant first. */
  function Int(i: nat): Bytes {
    [(i / 0x100_0000 % 0x100) as Byte, (i / 0x1_0000 % 0x100) as Byte, (i / 0x100 % 0x100) as Byte, (i % 0x100) as Byte]
  }

  function Xor(a: Bytes, b: Bytes): Bytes
    requires |a| == |b|
  {
    seq(|a|, j requires 0 <= j < |a| => a[j] ^ b[j])
  }

  /** U_j: U_1 = PRF(P, S || INT(i)), U_j = PRF(P, U_{j-1}). */
  function U(prf: (Bytes, Bytes) -> Bytes, password: Bytes, salt: Bytes, i: nat, j: nat): Bytes
    requires j >= 1
  {
    if j == 1 then prf(password, salt + Int(i)) else prf(password, U(prf, password, salt, i, j - 1))
  }

  /** U_1 xor ... xor U_c. */
  function F(prf: (Bytes, Bytes) -> Bytes, password: Bytes, salt: Bytes, c: nat, i: nat): (t: Bytes)
    requires IsPrf(prf) && c >= 1
    ensures |t| == HASH_LEN
    decreases c
  {
    if c == 1 then U(prf, password, salt, i, 1)
    else Xor(F(prf, password, salt, c - 1, i), U(prf, password, salt, i, c))
  }

  /** T_1 || ... || T_l. */
  function Blocks(prf: (Bytes, Bytes) -> Bytes, password: Bytes, salt: Bytes, c: nat, l: nat): (r: Bytes)
    requires IsPrf(prf) && c >= 1
    ensures |r| == l * HASH_LEN
  {
    if l == 0 then []
    else Blocks(prf, password, salt, c, l - 1) + F(prf, password, salt, c, l)
  }

  /** ceil(dkLen / hLen). */
  ghost predicate IsBlockCount(l: nat, dkLen: nat) {
    l * HASH_LEN >= dkLen && (l > 0 ==> (l - 1) * HASH_LEN < dkLen)
  }

  /** DK: the first `dkLen` octets of the blocks, as many as are needed. */
  ghost predicate IsDerivedKey(dk: Bytes, prf: (Bytes, Bytes) -> Bytes, password: Bytes, salt: Bytes, c: nat,
                               dkLen: nat)
    requires IsPrf(prf) && c >= 1
  {
    exists l: nat :: IsBlockCount(l, dkLen) && dk == Blocks(prf, password, salt, c, l)[..dkLen]
  }

  lemma BlockCountUnique(a: nat, b: nat, dkLen: nat)
    requires IsBlockCount(a, dkLen) && IsBlockCount(b, dkLen)
    ensures a == b
  {
  }

  /** There is one derived key. */
  lemma DerivedKeyUnique(a: Bytes, b: Bytes, prf: (Bytes, Bytes) -> Bytes, password: Bytes, salt: Bytes, c: nat,
                         dkLen: nat)
    requires IsPrf(prf) && c >= 1
    requires IsDerivedKey(a, prf, password, salt, c, dkLen) && IsDerivedKey(b, prf, password, salt, c, dkLen)
    ensures a == b
  {
    var k: nat :| IsBlockCount(k, dkLen) && a == Blocks(prf, password, salt, c, k)[..dkLen];
    var l: nat :| IsBlockCount(l, dkLen) && b == Blocks(prf, password, salt, c, l)[..dkLen];
    BlockCountUnique(k, l, dkLen);
  }

  // -------------------------------------------------- the four-byte block number

  function FromInt(b: Bytes): nat
    requires |b| == 4
  {
    (b[0] as nat) * 0x100_0000 + (b[1] as nat) * 0x1_0000 + (b[2] as nat) * 0x100 + (b[3] as nat)
  }

  lemma NextByte(a: Byte)
    requires a < 255
    ensures (a + 1) as nat == a as nat + 1
  {
  }

  lemma NatRoundTrip(y: Byte)
    ensures (y as nat) as Byte == y
  {
  }

  lemma {:induction false} ByteOf(x: nat) returns (y: Byte)
    requires x < 0x100
    ensures y as nat == x
  {
    if x == 0 {
      y := 0;
    } else {
      var z := ByteOf(x - 1);
      NextByte(z);
      y := z + 1;
    }
  }

  lemma ByteRoundTrip(x: nat)
    requires x < 0x100
    ensures (x as Byte) as nat == x
  {
    var y := ByteOf(x);
    NatRoundTrip(y);
  }

  lemma Digits(i: nat)
    requires i < 0x1_0000_0000
    ensures (i / 0x100_0000 % 0x100) * 0x100_0000 + (i / 0x1_0000 % 0x100) * 0x1_0000 +
      (i / 0x100 % 0x100) * 0x100 + i % 0x100 == i
  {
    var q := i / 0x100;
    var r := q / 0x100;
    assert i / 0x1_0000 == r && i / 0x100_0000 == r / 0x100;
  }

  lemma FromIntBytes(a: nat, b: nat, c: nat, d: nat)
    requires a < 0x100 && b < 0x100 && c < 0x100 && d < 0x100
    ensures FromInt([a as Byte, b as Byte, c as Byte, d as Byte]) ==
      a * 0x100_0000 + b * 0x1_0000 + c * 0x100 + d
  {
    ByteRoundTrip(a);
    ByteRoundTrip(b);
    ByteRoundTrip(c);
    ByteRoundTrip(d);
  }

  /** The four octets determine every block number below 2^32, so different blocks of one key
      hash different messages. */
  lemma IntRoundTrip(i: nat)
    requires i < 0x1_0000_0000
    ensures FromInt(Int(i)) == i
    ensures |Int(i)| == 4 && (Int(i)[0] as nat) * 16777216 + (Int(i)[1] as nat) * 65536 +
      (Int(i)[2] as nat) * 256 + (Int(i)[3] as nat) == i
  {
    FromIntBytes(i / 0x100_0000 % 0x100, i / 0x1_0000 % 0x100, i / 0x100 % 0x100, i % 0x100);
    Digits(i);
  }

  // ------------------------------------------------------------------- the loops

  /** The inner loops for one block: `t` collects the XOR of the chain in place. */
  method Block(prf: (Bytes, Bytes) -> Bytes, password: Bytes, salt: Bytes, iterations: nat, block: nat)
    returns (t: array<Byte>)
    requires IsPrf(prf) && iterations >= 1
    ensures fresh(t) && t[..] == F(prf, password, salt, iterations, block)
  {
    var u := prf(password, salt + Int(block));
    t := new Byte[HASH_LEN](j requires 0 <= j < HASH_LEN => u[j]);
    assert t[..] == u;
    for i := 1 to iterations
      invariant u == U(prf, password, salt, block, i)
      invariant t[..] == F(prf, password, salt, i, block)
    {
      u := prf(password, u);
      ghost var before := t[..];
      XorInto(t, u);
      assert t[..] == Xor(before, u);
    }
  }

  /** `for j := range t { t[j] ^= u[j] }`. */
  method XorInto(t: array<Byte>, u: Bytes)
    requires t.Length == |u|
    modifies t
    ensures t[..] == Xor(old(t[..]), u)
  {
    for j := 0 to t.Length
      invariant forall k | 0 <= k < j :: t[k] == old(t[k]) ^ u[k]
      invariant forall k | j <= k < t.Length :: t[k] == old(t[k])
    {
      t[j] := t[j] ^ u[j];
    }
  }

  /** The result is the derived key. The standard allows key lengths up to (2^32 - 1) * 32, where
      the block number fits its four octets; beyond that the octets wrap around, as in `Int`. */
  method Pbkdf2SHA256(prf: (Bytes, Bytes) -> Bytes, password: Bytes, salt: Bytes, iterations: nat, keyLen: nat)
    returns (key: Bytes)
    requires IsPrf(prf) && iterations >= 1
    ensures IsDerivedKey(key, prf, password, salt, iterations, keyLen)
    ensures |key| == keyLen
  {
    var blocks := (keyLen + HASH_LEN - 1) / HASH_LEN;
    assert IsBlockCount(blocks, keyLen);
    var output: Bytes := [];
    for block := 1 to blocks + 1
      invariant output == Blocks(prf, password, salt, iterations, block - 1)
    {
      var t := Block(prf, password, salt, iterations, block);
      output := output + t[..];
    }
    key := output[..keyLen];
  }
}
