/** Password hashes: the stored string, how it is made and how it is checked. */
module Password {
  import opened Domain
  import opened Paging
  import opened Pbkdf2

  const ALGORITHM := "pbkdf2_sha256"
  const ITERATIONS := 120000
  const KEY_BYTES := 32

  /** The library functions: the pseudorandom function, the bytes of a string, and base64. */
  datatype Library = Library(
    prf: (Bytes, Bytes) -> Bytes,
    utf8: string -> Bytes,
    encode: Bytes -> string,
    decode: string -> Option<Bytes>)

  /** Base64 decodes what it encodes, and its alphabet has no `$`. */
  ghost predicate Faithful(lib: Library) {
    IsPrf(lib.prf) && forall b :: lib.decode(lib.encode(b)) == Some(b) && '$' !in lib.encode(b)
  }

  /** `strings.Split(s, "$")`. */
  function Split(s: string): (parts: seq<string>)
    ensures |parts| > 0
  {
    if s == "" then [""]
    else
      var rest := Split(s[1..]);
      if s[0] == '$' then [""] + rest else [[s[0]] + rest[0]] + rest[1..]
  }

  lemma {:induction false} SplitPlain(s: string)
    requires '$' !in s
    ensures Split(s) == [s]
  {
    if s != "" {
      SplitPlain(s[1..]);
      assert [s[0]] + s[1..] == s;
    }
  }

  lemma {:induction false} SplitAfter(a: string, rest: string)
    requires '$' !in a
    ensures Split(a + "$" + rest) == [a] + Split(rest)
  {
    if a == "" {
      assert (a + "$" + rest)[1..] == rest;
    } else {
      SplitAfter(a[1..], rest);
      assert (a + "$" + rest)[1..] == a[1..] + "$" + rest;
      assert [a[0]] + a[1..] == a;
    }
  }

  predicate Digits(s: string) {
    s != "" && AllDigits(s)
  }

  predicate AllDigits(s: string) {
    forall i | 0 <= i < |s| :: '0' <= s[i] <= '9'
  }

  function Decimal(s: string): nat
    requires AllDigits(s)
  {
    if s == "" then 0
    else Decimal(s[..|s| - 1]) * 10 + (s[|s| - 1] as int - '0' as int)
  }

  /** `strconv.Atoi`. */
  function Atoi(s: string): Option<int> {
    var signed := s != "" && (s[0] == '+' || s[0] == '-');
    var digits := if signed then s[1..] else s;
    if !Digits(digits) then None
    else
      var d: int := Decimal(digits);
      var n := if signed && s[0] == '-' then -d else d;
      if -MAX_INT - 1 <= n <= MAX_INT then Some(n) else None
  }

  function Encoded(lib: Library, salt: Bytes, key: Bytes): string {
    ALGORITHM + "$" + ("120000" + "$" + (lib.encode(salt) + "$" + lib.encode(key)))
  }

  /** The string encodes the salt and the key of 32 bytes derived from the password and it. */
  ghost predicate IsHash(lib: Library, encoded: string, password: string, salt: Bytes)
    requires IsPrf(lib.prf)
  {
    exists key ::
      |key| == KEY_BYTES && IsDerivedKey(key, lib.prf, lib.utf8(password), salt, ITERATIONS, KEY_BYTES) &&
      encoded == Encoded(lib, salt, key)
  }

  method HashPassword(lib: Library, password: string, salt: Bytes) returns (r: Option<string>)
    requires IsPrf(lib.prf)
    ensures r == None <==> password == ""
    ensures r.Some? ==> IsHash(lib, r.value, password, salt)
  {
    if password == "" {
      return None;
    }
    var key := Pbkdf2SHA256(lib.prf, lib.utf8(password), salt, ITERATIONS, KEY_BYTES);
    return Some(Encoded(lib, salt, key));
  }

  /** A stored string accepts a password: it has four parts, names the algorithm, a positive
      iteration count and two base64 values, and the second value is the key derived from the
      password and the first. */
  ghost predicate Accepts(lib: Library, encoded: string, password: string)
    requires IsPrf(lib.prf)
  {
    var parts := Split(encoded);
    |parts| == 4 && parts[0] == ALGORITHM &&
    var iterations, salt, expected := Atoi(parts[1]), lib.decode(parts[2]), lib.decode(parts[3]);
    iterations.Some? && iterations.value > 0 && salt.Some? && expected.Some? &&
    IsDerivedKey(expected.value, lib.prf, lib.utf8(password), salt.value, iterations.value, |expected.value|)
  }

  method VerifyPassword(lib: Library, password: string, encoded: string) returns (ok: bool)
    requires IsPrf(lib.prf)
    ensures ok == Accepts(lib, encoded, password)
  {
    var parts := Split(encoded);
    if |parts| != 4 || parts[0] != ALGORITHM {
      return false;
    }
    var iterations := Atoi(parts[1]);
    if iterations.None? || iterations.value <= 0 {
      return false;
    }
    var salt := lib.decode(parts[2]);
    if salt.None? {
      return false;
    }
    var expected := lib.decode(parts[3]);
    if expected.None? {
      return false;
    }
    var actual := Pbkdf2SHA256(lib.prf, lib.utf8(password), salt.value, iterations.value, |expected.value|);
    ok := actual == expected.value;
    if Accepts(lib, encoded, password) {
      DerivedKeyUnique(actual, expected.value, lib.prf, lib.utf8(password), salt.value, iterations.value,
                       |expected.value|);
    }
  }

  lemma EncodedParts(lib: Library, salt: Bytes, key: Bytes)
    requires Faithful(lib)
    ensures Split(Encoded(lib, salt, key)) == [ALGORITHM, "120000", lib.encode(salt), lib.encode(key)]
    ensures Atoi("120000") == Some(ITERATIONS)
  {
    var rest2 := lib.encode(salt) + "$" + lib.encode(key);
    SplitPlain(lib.encode(key));
    SplitAfter(lib.encode(salt), lib.encode(key));
    SplitAfter("120000", rest2);
    SplitAfter(ALGORITHM, "120000" + "$" + rest2);
    assert Decimal("120000") == 120000 by {
      assert "120000"[..5] == "12000" && "12000"[..4] == "1200" && "1200"[..3] == "120";
      assert "120"[..2] == "12" && "12"[..1] == "1" && "1"[..0] == "";
      assert Decimal("12") == 12;
      assert Decimal("1200") == 1200;
    }
  }

  /** The stored string of one password accepts another password exactly when the two derive the
      same key from the salt. */
  lemma HashAcceptsSameKey(lib: Library, salt: Bytes, key: Bytes, password: string, other: string)
    requires Faithful(lib) && |key| == KEY_BYTES
    requires IsDerivedKey(key, lib.prf, lib.utf8(password), salt, ITERATIONS, KEY_BYTES)
    ensures Accepts(lib, Encoded(lib, salt, key), other) <==>
      IsDerivedKey(key, lib.prf, lib.utf8(other), salt, ITERATIONS, KEY_BYTES)
  {
    EncodedParts(lib, salt, key);
  }

  /** A password is accepted by its own hash, whatever the salt. */
  lemma HashAcceptsItsPassword(lib: Library, encoded: string, password: string, salt: Bytes)
    requires Faithful(lib) && IsHash(lib, encoded, password, salt)
    ensures Accepts(lib, encoded, password)
  {
    var key :| |key| == KEY_BYTES && encoded == Encoded(lib, salt, key) &&
      IsDerivedKey(key, lib.prf, lib.utf8(password), salt, ITERATIONS, KEY_BYTES);
    HashAcceptsSameKey(lib, salt, key, password, password);
  }
}
