/**
 * Password hashing as AuthService uses it (PasswordHelper.HashPassword and
 * PasswordHelper.VerifyPassword). PasswordHelper itself is not part of this
 * model: its PBKDF2 derivation and random salt are replaced by a stand-in with
 * these properties, which the repository's tests assert:
 *
 *   - a digest of a password verifies against that password;
 *   - it does not verify against any other password;
 *   - a digest never equals its plaintext;
 *   - two digests made with different salts differ, so hashing the same
 *     password twice gives two different strings.
 *
 * The tests' bound of more than 50 characters is not met. The stand-in's
 * digest is longer than its password, a bound that does not hold of a
 * fixed-length PBKDF2 digest.
 *
 * A digest is self-describing: "<salt in decimal>$<derived key>". The
 * derived key is the password with every character below U+D800 rotated by
 * the salt; it stands for the one-way key derivation. It is injective and
 * length-preserving for a fixed salt, the only properties of the derivation
 * the proofs use.
 */
module Hashing {
  import opened Wrappers

  const Separator: char := '$'

  /** Characters U+0000..U+D7FF form the block the derivation rotates. */
  const Block: nat := 0xD800

  predicate IsDigit(c: char) {
    '0' <= c <= '9'
  }

  predicate IsDigits(s: string) {
    forall i :: 0 <= i < |s| ==> IsDigit(s[i])
  }

  function DigitChar(d: nat): (c: char)
    requires d < 10
    ensures IsDigit(c)
  {
    ('0' as int + d) as char
  }

  /** Decimal text of a salt, most significant digit first. */
  function NatToDigits(n: nat): (s: string)
    ensures |s| > 0 && IsDigits(s)
    decreases n
  {
    if n < 10 then [DigitChar(n)] else NatToDigits(n / 10) + [DigitChar(n % 10)]
  }

  /** The value of a decimal text. */
  function DigitsToNat(s: string): nat
    requires IsDigits(s)
  {
    if s == [] then 0 else DigitsToNat(s[..|s| - 1]) * 10 + (s[|s| - 1] as int - '0' as int)
  }

  lemma {:induction false} DigitsRoundTrip(n: nat)
    ensures DigitsToNat(NatToDigits(n)) == n
  {
    if n >= 10 {
      var s := NatToDigits(n);
      assert s[..|s| - 1] == NatToDigits(n / 10);
      DigitsRoundTrip(n / 10);
    }
  }

  /** The first position of `c` in `s`, if any. */
  function IndexOf(s: string, c: char): (r: Option<nat>)
    ensures r.Some? ==> r.value < |s| && s[r.value] == c
    ensures r.Some? ==> forall i :: 0 <= i < r.value ==> s[i] != c
    ensures r.None? ==> forall i :: 0 <= i < |s| ==> s[i] != c
  {
    if s == [] then None
    else if s[0] == c then Some(0)
    else match IndexOf(s[1..], c)
      case None => None
      case Some(i) => Some(i + 1)
  }

  /** One character of the derived key. */
  function Rotate(salt: nat, c: char): char {
    var k := salt % Block;
    if c as int < Block then
      (if c as int + k < Block then c as int + k else c as int + k - Block) as char
    else
      c
  }

  /** The derived key of `password` under `salt`. */
  function DeriveKey(salt: nat, password: string): (key: string)
    ensures |key| == |password|
  {
    seq(|password|, i requires 0 <= i < |password| => Rotate(salt, password[i]))
  }

  /** For a fixed salt, different passwords give different derived keys. */
  lemma DeriveKeyInjective(salt: nat, p: string, q: string)
    requires DeriveKey(salt, p) == DeriveKey(salt, q)
    ensures p == q
  {
    assert |p| == |q|;
    forall i | 0 <= i < |p|
      ensures p[i] == q[i]
    {
      assert DeriveKey(salt, p)[i] == DeriveKey(salt, q)[i];
    }
  }

  /** The digest HashPassword returns when it draws `salt`. */
  function Digest(salt: nat, password: string): (digest: string)
    ensures |digest| > |password|
    ensures digest != password
  {
    NatToDigits(salt) + [Separator] + DeriveKey(salt, password)
  }

  datatype Parsed = Parsed(salt: nat, key: string)

  /** Splits a digest into its salt and derived key; None when it is malformed. */
  function ParseDigest(digest: string): Option<Parsed> {
    match IndexOf(digest, Separator)
    case None => None
    case Some(at) =>
      var saltText := digest[..at];
      if saltText != [] && IsDigits(saltText) then
        Some(Parsed(DigitsToNat(saltText), digest[at + 1..]))
      else
        None
  }

  lemma ParseDigestRoundTrip(salt: nat, password: string)
    ensures ParseDigest(Digest(salt, password)) == Some(Parsed(salt, DeriveKey(salt, password)))
  {
    var text := NatToDigits(salt);
    var d := Digest(salt, password);
    assert d[|text|] == Separator;
    assert forall i :: 0 <= i < |text| ==> d[i] == text[i];
    assert IndexOf(d, Separator) == Some(|text|);
    assert d[..|text|] == text;
    assert d[|text| + 1..] == DeriveKey(salt, password);
    DigitsRoundTrip(salt);
  }

  /**
   * PasswordHelper.VerifyPassword: recompute the derived key with the salt the
   * digest carries and compare. A malformed digest verifies nothing; nothing
   * here can fail.
   */
  function VerifyPassword(password: string, digest: string): (ok: bool)
    ensures ok ==> ParseDigest(digest).Some?
  {
    match ParseDigest(digest)
    case None => false
    case Some(parsed) => DeriveKey(parsed.salt, password) == parsed.key
  }

  /** A digest verifies against the password it was made from. */
  lemma VerifyHashed(salt: nat, password: string)
    ensures VerifyPassword(password, Digest(salt, password))
  {
    ParseDigestRoundTrip(salt, password);
  }

  /** A digest does not verify against any other password. */
  lemma RejectWrongPassword(salt: nat, password: string, attempt: string)
    requires attempt != password
    ensures !VerifyPassword(attempt, Digest(salt, password))
  {
    ParseDigestRoundTrip(salt, password);
    if DeriveKey(salt, attempt) == DeriveKey(salt, password) {
      DeriveKeyInjective(salt, attempt, password);
    }
  }

  /** A text without the separator (such as "not-a-valid-digest") verifies nothing. */
  lemma MalformedDigestRejected(password: string, digest: string)
    requires forall i :: 0 <= i < |digest| ==> digest[i] != Separator
    ensures !VerifyPassword(password, digest)
  {
  }

  /**
   * Digests made with different salts differ, whatever the passwords; with
   * the same salt they differ exactly when the passwords do.
   */
  lemma DistinctDigests(salt1: nat, salt2: nat, p: string, q: string)
    requires salt1 != salt2 || p != q
    ensures Digest(salt1, p) != Digest(salt2, q)
  {
    if Digest(salt1, p) == Digest(salt2, q) {
      ParseDigestRoundTrip(salt1, p);
      ParseDigestRoundTrip(salt2, q);
      DeriveKeyInjective(salt1, p, q);
    }
  }

  /**
   * The hasher's source of salts. Each HashPassword call draws a salt this
   * hasher has never drawn (the counter `issued` stands for the random
   * generator). Salts are fresh per hasher object, not across hashers.
   */
  class PasswordHasher {
    var issued: nat

    constructor ()
      ensures issued == 0
    {
      issued := 0;
    }

    method HashPassword(password: string) returns (digest: string)
      modifies this
      ensures issued == old(issued) + 1
      ensures digest == Digest(old(issued), password)
    {
      digest := Digest(issued, password);
      issued := issued + 1;
    }
  }
}
