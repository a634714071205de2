/**
 Stored password strings character by character, and derived keys octet by octet.
 */
module PasswordMeaning {
  import opened Domain
  import opened Password
  import opened Pbkdf2

  // --------------------------------------------------------------- the derived key

  /** Octet `n` of a derived key, written out: the chain of hashes of its block, and the running
      exclusive or of their octets at its place. */
  ghost predicate IsTrace(prf: (Bytes, Bytes) -> Bytes, password: Bytes, salt: Bytes, c: nat, n: nat,
                          hashes: seq<Bytes>, octets: Bytes)
    requires IsPrf(prf) && c >= 1
  {
    && |hashes| == |octets| == c
    && (forall k | 0 <= k < c :: |hashes[k]| == 32)
    && hashes[0] == prf(password, salt + Int(n / 32 + 1))
    && (forall k | 0 < k < c :: hashes[k] == prf(password, hashes[k - 1]))
    && octets[0] == hashes[0][n % 32]
    && (forall k | 0 < k < c :: octets[k] == octets[k - 1] ^ hashes[k][n % 32])
  }

  lemma ULength(prf: (Bytes, Bytes) -> Bytes, password: Bytes, salt: Bytes, i: nat, j: nat)
    requires IsPrf(prf) && j >= 1
    ensures |U(prf, password, salt, i, j)| == 32
  {
  }

  lemma FOctet(prf: (Bytes, Bytes) -> Bytes, password: Bytes, salt: Bytes, c: nat, i: nat, j: nat)
    requires IsPrf(prf) && c >= 1 && j < 32
    ensures |U(prf, password, salt, i, c)| == 32
    ensures F(prf, password, salt, c, i)[j] ==
      if c == 1 then U(prf, password, salt, i, 1)[j]
      else F(prf, password, salt, c - 1, i)[j] ^ U(prf, password, salt, i, c)[j]
  {
  }

  lemma FHasTrace(prf: (Bytes, Bytes) -> Bytes, password: Bytes, salt: Bytes, c: nat, n: nat)
    returns (hashes: seq<Bytes>, octets: Bytes)
    requires IsPrf(prf) && c >= 1
    ensures IsTrace(prf, password, salt, c, n, hashes, octets)
    ensures octets[c - 1] == F(prf, password, salt, c, n / 32 + 1)[n % 32]
  {
    var i, j := n / 32 + 1, n % 32;
    hashes := seq(c, k requires 0 <= k < c => U(prf, password, salt, i, k + 1));
    octets := seq(c, k requires 0 <= k < c => F(prf, password, salt, k + 1, i)[j]);
    forall k | 0 <= k < c ensures |hashes[k]| == 32 && (k > 0 ==> octets[k] == octets[k - 1] ^ hashes[k][j]) {
      FOctet(prf, password, salt, k + 1, i, j);
    }
    FOctet(prf, password, salt, 1, i, j);
  }

  lemma {:induction false} BlockOctet(prf: (Bytes, Bytes) -> Bytes, password: Bytes, salt: Bytes, c: nat, l: nat,
                                      n: nat)
    requires IsPrf(prf) && c >= 1 && n < l * 32
    ensures Blocks(prf, password, salt, c, l)[n] == F(prf, password, salt, c, n / 32 + 1)[n % 32]
  {
    if n < (l - 1) * 32 {
      BlockOctet(prf, password, salt, c, l - 1, n);
    } else {
      LastBlock(l, n);
    }
  }

  lemma LastBlock(l: nat, n: nat)
    requires (l - 1) * 32 <= n < l * 32
    ensures n / 32 + 1 == l && n % 32 == n - (l - 1) * 32
  {
  }

  ghost predicate IsOctet(prf: (Bytes, Bytes) -> Bytes, password: Bytes, salt: Bytes, c: nat, n: nat, x: Byte)
    requires IsPrf(prf) && c >= 1
  {
    exists hashes, octets :: IsTrace(prf, password, salt, c, n, hashes, octets) && x == octets[c - 1]
  }

  lemma OctetOfBlocks(prf: (Bytes, Bytes) -> Bytes, password: Bytes, salt: Bytes, c: nat, l: nat, n: nat)
    requires IsPrf(prf) && c >= 1 && n < l * 32
    ensures IsOctet(prf, password, salt, c, n, Blocks(prf, password, salt, c, l)[n])
  {
    BlockOctet(prf, password, salt, c, l, n);
    var hashes, octets := FHasTrace(prf, password, salt, c, n);
    assert IsTrace(prf, password, salt, c, n, hashes, octets);
  }

  /** A derived key has its length, and every octet of it is the last of such a trace. */
  lemma KeyOctets(dk: Bytes, prf: (Bytes, Bytes) -> Bytes, password: Bytes, salt: Bytes, c: nat, dkLen: nat)
    requires IsPrf(prf) && c >= 1 && IsDerivedKey(dk, prf, password, salt, c, dkLen)
    ensures |dk| == dkLen
    ensures forall n | 0 <= n < dkLen :: IsOctet(prf, password, salt, c, n, dk[n])
  {
    var l: nat :| IsBlockCount(l, dkLen) && dk == Blocks(prf, password, salt, c, l)[..dkLen];
    forall n | 0 <= n < dkLen ensures IsOctet(prf, password, salt, c, n, dk[n]) {
      OctetOfBlocks(prf, password, salt, c, l, n);
    }
  }

  // -------------------------------------------------------------- the stored string

  /** What `HashPassword` returns: the algorithm, the count 120000, and the salt and the key of 32
      octets in base64, with `$` between them. */
  lemma HashWritten(lib: Library, encoded: string, password: string, salt: Bytes)
    requires Faithful(lib) && IsHash(lib, encoded, password, salt)
    ensures exists key | |key| == 32 && IsDerivedKey(key, lib.prf, lib.utf8(password), salt, 120000, 32) ::
      IsWritten(encoded, "120000", lib.encode(salt), lib.encode(key))
  {
    var key :| |key| == KEY_BYTES && encoded == Encoded(lib, salt, key) &&
      IsDerivedKey(key, lib.prf, lib.utf8(password), salt, ITERATIONS, KEY_BYTES);
  }

  /** The string has exactly these three parts after the algorithm. */
  ghost predicate IsWritten(encoded: string, count: string, salt: string, key: string) {
    && encoded == "pbkdf2_sha256" + "$" + (count + "$" + (salt + "$" + key))
    && '$' !in count && '$' !in salt && '$' !in key
  }

  ghost function Join(parts: seq<string>): string {
    if parts == [] then "" else if |parts| == 1 then parts[0] else parts[0] + "$" + Join(parts[1..])
  }

  /** Splitting gives back the string, and no part has a `$`. */
  lemma {:induction false} SplitJoins(s: string)
    ensures Join(Split(s)) == s && forall p | p in Split(s) :: '$' !in p
  {
    if s != "" {
      SplitJoins(s[1..]);
      var rest, parts := Split(s[1..]), Split(s);
      if s[0] == '$' {
        assert parts[1..] == rest;
      } else {
        assert rest[0] in rest && parts[1..] == rest[1..];
        assert forall p | p in rest[1..] :: p in rest;
        assert Join(parts) == [s[0]] + Join(rest);
      }
    }
  }

  /** Parts without a `$`, joined by it, are what splitting gives. */
  lemma SplitFour(a: string, b: string, c: string, d: string)
    requires '$' !in a && '$' !in b && '$' !in c && '$' !in d
    ensures Split(a + "$" + (b + "$" + (c + "$" + d))) == [a, b, c, d]
  {
    SplitPlain(d);
    SplitAfter(c, d);
    SplitAfter(b, c + "$" + d);
    SplitAfter(a, b + "$" + (c + "$" + d));
  }

  lemma JoinFour(a: string, b: string, c: string, d: string)
    ensures Join([a, b, c, d]) == a + "$" + (b + "$" + (c + "$" + d))
  {
    assert Join([d]) == d;
    assert [c, d][1..] == [d] && Join([c, d]) == c + "$" + d;
    assert [b, c, d][1..] == [c, d] && Join([b, c, d]) == b + "$" + (c + "$" + d);
    assert [a, b, c, d][1..] == [b, c, d];
  }

  lemma FourParts(s: string, a: string, b: string, c: string, d: string)
    ensures Split(s) == [a, b, c, d] <==>
      s == a + "$" + (b + "$" + (c + "$" + d)) && '$' !in a && '$' !in b && '$' !in c && '$' !in d
  {
    var parts := [a, b, c, d];
    if Split(s) == parts {
      SplitJoins(s);
      JoinFour(a, b, c, d);
      assert a in parts && b in parts && c in parts && d in parts;
    }
    if s == a + "$" + (b + "$" + (c + "$" + d)) && '$' !in a && '$' !in b && '$' !in c && '$' !in d {
      SplitFour(a, b, c, d);
    }
  }

  /** The count is a positive number, and the key is derived from the password and the salt. */
  ghost predicate KeyFits(lib: Library, count: string, salt: string, key: string, password: string)
    requires IsPrf(lib.prf)
  {
    && Atoi(count).Some? && Atoi(count).value >= 1
    && lib.decode(salt).Some? && lib.decode(key).Some?
    && IsDerivedKey(lib.decode(key).value, lib.prf, lib.utf8(password), lib.decode(salt).value, Atoi(count).value,
                    |lib.decode(key).value|)
  }

  /** A string is accepted exactly when it is written in these parts and the key fits. */
  lemma AcceptsExactly(lib: Library, encoded: string, password: string)
    requires IsPrf(lib.prf)
    ensures Accepts(lib, encoded, password) <==>
      exists count, salt, key :: IsWritten(encoded, count, salt, key) && KeyFits(lib, count, salt, key, password)
  {
    var parts := Split(encoded);
    if Accepts(lib, encoded, password) {
      assert parts == ["pbkdf2_sha256", parts[1], parts[2], parts[3]];
      FourParts(encoded, "pbkdf2_sha256", parts[1], parts[2], parts[3]);
      assert IsWritten(encoded, parts[1], parts[2], parts[3]);
    }
    if count, salt, key :| IsWritten(encoded, count, salt, key) && KeyFits(lib, count, salt, key, password) {
      FourParts(encoded, "pbkdf2_sha256", count, salt, key);
    }
  }

  // ------------------------------------------------------------------- the count

  /** A number in decimal digits. */
  function Written(n: nat): string {
    if n < 10 then [(n + 48) as char] else Written(n / 10) + [(n % 10 + 48) as char]
  }

  lemma {:induction false} WrittenReads(n: nat)
    ensures Written(n) != "" && AllDigits(Written(n)) && Decimal(Written(n)) == n
  {
    if n >= 10 {
      WrittenReads(n / 10);
      var s, w := Written(n / 10), Written(n);
      assert w[..|w| - 1] == s;
    } else {
      assert Written(n)[..0] == "";
    }
  }

  ghost function In64Bits(n: int): Option<int> {
    if -0x8000_0000_0000_0000 <= n < 0x8000_0000_0000_0000 then Some(n) else None
  }

  /** `Atoi` reads decimal numbers, with or without a sign, as far as 64 bits hold them. */
  lemma AtoiReads(n: nat, s: string)
    requires s == Written(n)
    ensures Atoi(s) == In64Bits(n) && Atoi("+" + s) == In64Bits(n) && Atoi("-" + s) == In64Bits(0 - n)
  {
    WrittenReads(n);
    assert '0' <= s[0] <= '9';
    assert ("+" + s)[1..] == s && ("-" + s)[1..] == s;
  }

  /** Anything but digits after an optional sign is no number. */
  lemma AtoiRefuses(s: string)
    requires s == "" || s == "+" || s == "-" || exists i | 0 <= i < |s| ::
      !('0' <= s[i] <= '9') && !(i == 0 && (s[0] == '+' || s[0] == '-'))
    ensures Atoi(s) == None
  {
    if s != "" && s != "+" && s != "-" {
      var i :| 0 <= i < |s| && !('0' <= s[i] <= '9') && !(i == 0 && (s[0] == '+' || s[0] == '-'));
      if i > 0 {
        assert s[1..][i - 1] == s[i];
      }
    }
  }
}
