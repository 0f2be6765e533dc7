/**
 * Stand-ins for bcryptjs and jsonwebtoken. They are not cryptography: they are
 * the smallest concrete functions with the properties the handlers rely on.
 *   - bcrypt: `compare(p, hash(p))` holds and `compare(q, hash(p))` fails for q != p.
 *   - JWT: a token carries `{userId}` and a signature bound to the secret;
 *     `verify(sign(u, k), k)` gives back `u`, and `verify` rejects everything else.
 * The payload is the user id in decimal, as `JSON.stringify` writes a number;
 * the key stands in for the HMAC signature over it.
 */
module Crypto {
  import opened Wrappers
  import opened Strings

  // ---------------------------------------------------------------------------
  // bcrypt (cost factor 10)

  const BcryptPrefix: string := "$2a$10$"

  /** `bcrypt.hash(password, 10)`, without the random salt: a cost-10 hash, never the password itself. */
  function Hash(password: string): (h: string)
    ensures |h| == |BcryptPrefix| + |password| && h != password
    ensures h[..|BcryptPrefix|] == BcryptPrefix
  {
    BcryptPrefix + password
  }

  /** `bcrypt.compare(password, hash)`: a match means the stored hash encodes this password. */
  function Compare(password: string, hash: string): (ok: bool)
    ensures ok ==> |hash| >= |BcryptPrefix| && hash[..|BcryptPrefix|] == BcryptPrefix
    ensures ok ==> hash[|BcryptPrefix|..] == password
  {
    hash == Hash(password)
  }

  /** A password matches a stored hash exactly when it is the password that was hashed. */
  lemma {:induction false} CompareHash(password: string, stored: string)
    ensures Compare(password, Hash(stored)) <==> password == stored
  {
    if Compare(password, Hash(stored)) {
      assert Hash(password)[|BcryptPrefix|..] == password;
      assert Hash(stored)[|BcryptPrefix|..] == stored;
    }
  }

  // ---------------------------------------------------------------------------
  // Decimal numerals (the JSON form of the `userId` claim)

  predicate IsDigit(c: char) {
    '0' <= c <= '9'
  }

  predicate IsDigits(s: string) {
    forall i :: 0 <= i < |s| ==> IsDigit(s[i])
  }

  function DigitChar(d: nat): (c: char)
    requires d < 10
    ensures IsDigit(c)
  {
    (48 + d) as char
  }

  function DigitValue(c: char): (d: nat)
    requires IsDigit(c)
    ensures d < 10 && DigitChar(d) == c
  {
    (c as int - 48) as nat
  }

  /** The shortest decimal numeral of `n`: at least one digit, no leading zero. */
  predicate IsCanonical(s: string) {
    |s| >= 1 && IsDigits(s) && (|s| > 1 ==> s[0] != '0')
  }

  function Decimal(n: nat): (s: string)
    ensures IsCanonical(s)
    ensures n < 10 <==> |s| == 1
    decreases n
  {
    if n < 10 then [DigitChar(n)] else Decimal(n / 10) + [DigitChar(n % 10)]
  }

  function ValueOf(s: string): nat
    requires IsDigits(s)
  {
    if s == [] then 0 else ValueOf(s[..|s| - 1]) * 10 + DigitValue(s[|s| - 1])
  }

  /** Reads a canonical decimal numeral; anything else is rejected. */
  function ParseDecimal(s: string): Option<nat> {
    if IsCanonical(s) then Some(ValueOf(s)) else None
  }

  lemma {:induction false} ValueOfDecimal(n: nat)
    ensures ValueOf(Decimal(n)) == n
    decreases n
  {
    if n >= 10 {
      ValueOfDecimal(n / 10);
      var s := Decimal(n);
      assert s[..|s| - 1] == Decimal(n / 10);
    }
  }

  lemma {:induction false} LeadingDigitPositive(s: string)
    requires IsDigits(s) && |s| >= 1 && s[0] != '0'
    ensures ValueOf(s) >= 1
    decreases |s|
  {
    if |s| > 1 {
      LeadingDigitPositive(s[..|s| - 1]);
    }
  }

  lemma {:induction false} DecimalOfValue(s: string)
    requires IsCanonical(s)
    ensures Decimal(ValueOf(s)) == s
    decreases |s|
  {
    if |s| > 1 {
      var front := s[..|s| - 1];
      assert IsCanonical(front);
      LeadingDigitPositive(front);
      DecimalOfValue(front);
      var n := ValueOf(s);
      assert n / 10 == ValueOf(front) && n % 10 == DigitValue(s[|s| - 1]);
      assert s == front + [s[|s| - 1]];
    }
  }

  /** Reading and writing numerals are inverse to each other, in both directions. */
  lemma ParseDecimalIff(s: string, n: nat)
    ensures ParseDecimal(s) == Some(n) <==> s == Decimal(n)
  {
    if s == Decimal(n) {
      ValueOfDecimal(n);
    }
    if ParseDecimal(s) == Some(n) {
      DecimalOfValue(s);
    }
  }

  // ---------------------------------------------------------------------------
  // JSON Web Tokens

  /**
   * The key jsonwebtoken uses for a configured secret: an absent or empty secret
   * means there is no key, and both `sign` and `verify` throw.
   */
  function Key(secret: Option<string>): (k: Option<string>)
    ensures k.Some? <==> secret.Some? && secret.value != ""
    ensures k.Some? ==> k.value == secret.value
  {
    if secret.Some? && secret.value != "" then secret else None
  }

  /** A token carrying `{userId}` signed with `key`. */
  function Sign(userId: nat, key: string): string {
    Decimal(userId) + "." + key
  }

  /** The `userId` claim of `token` if its signature matches `key`. */
  function Verify(token: string, key: string): Option<nat> {
    match IndexOf(token, ".")
    case None => None
    case Some(i) => if token[i + 1..] == key then ParseDecimal(token[..i]) else None
  }

  /** `jwt.sign({userId}, secret)`; None where the library throws. */
  function JwtSign(userId: nat, secret: Option<string>): (t: Option<string>)
    ensures t.Some? <==> Key(secret).Some?
  {
    match Key(secret)
    case None => None
    case Some(k) => Some(Sign(userId, k))
  }

  /** `jwt.verify(token, secret).userId`; None where the library throws. */
  function JwtVerify(token: string, secret: Option<string>): (r: Option<nat>)
    ensures r.Some? ==> Key(secret).Some? && token == Sign(r.value, Key(secret).value)
  {
    match Key(secret)
    case None => None
    case Some(k) =>
      var r := Verify(token, k);
      if r.Some? then VerifyOnlySigned(token, k, r.value); r else r
  }

  /** The first '.' of a signed token ends its payload. */
  lemma {:induction false} SignFirstDot(userId: nat, key: string)
    ensures IndexOf(Sign(userId, key), ".") == Some(|Decimal(userId)|)
  {
    var d := Decimal(userId);
    var t := Sign(userId, key);
    assert t[|d|..|d| + 1] == ".";
    assert OccursAt(t, ".", |d|);
    forall j: nat | j < |d| ensures !OccursAt(t, ".", j) {
      assert t[j..j + 1] == [d[j]];
    }
  }

  /** Round trip: a token verifies with the key that signed it and yields its user. */
  lemma {:induction false} VerifySign(userId: nat, key: string)
    ensures Verify(Sign(userId, key), key) == Some(userId)
  {
    var d := Decimal(userId);
    var t := Sign(userId, key);
    SignFirstDot(userId, key);
    assert t[..|d|] == d && t[|d| + 1..] == key;
    ParseDecimalIff(d, userId);
  }

  /** A token verifies with `key` as `userId` only if it is exactly `Sign(userId, key)`. */
  lemma {:induction false} VerifyOnlySigned(token: string, key: string, userId: nat)
    ensures Verify(token, key) == Some(userId) <==> token == Sign(userId, key)
  {
    if token == Sign(userId, key) {
      VerifySign(userId, key);
    }
    if Verify(token, key) == Some(userId) {
      var i := IndexOf(token, ".").value;
      ParseDecimalIff(token[..i], userId);
      assert token == token[..i] + token[i..i + 1] + token[i + 1..];
    }
  }

  /** A token signed under one key is rejected under any other key. */
  lemma {:induction false} VerifyOtherKey(userId: nat, signer: string, verifier: string)
    requires signer != verifier
    ensures Verify(Sign(userId, signer), verifier) == None
  {
    var d := Decimal(userId);
    SignFirstDot(userId, signer);
    assert Sign(userId, signer)[|d| + 1..] == signer;
  }

  /** The library-level round trip: with a usable secret, sign then verify is the identity. */
  lemma JwtRoundTrip(userId: nat, secret: Option<string>)
    requires Key(secret).Some?
    ensures JwtSign(userId, secret).Some?
    ensures JwtVerify(JwtSign(userId, secret).value, secret) == Some(userId)
  {
    VerifySign(userId, Key(secret).value);
  }
}
