/**
 * The password record format of lib/auth.ts. A stored hash is
 * `salt + ":" + digest`, both hex.
 *
 * PBKDF2-SHA256 (1000 iterations, 64-byte key, hex output) is the parameter
 * `kdf`: an uninterpreted but deterministic function of password and salt.
 * The random salt and session bytes are parameters too.
 */
module Auth {
  import opened Tokens

  /** `(password, salt) => pbkdf2Sync(password, salt, 1000, 64, 'sha256').toString('hex')`. */
  type Kdf = (string, string) -> string

  /** What PBKDF2 with a 64-byte key and hex output always yields: 128 lowercase hex digits. */
  ghost predicate IsHexDigestFunction(kdf: Kdf) {
    forall password, salt :: |kdf(password, salt)| == 128 && IsLowerHex(kdf(password, salt))
  }

  const Colon := ':'

  /** `String.prototype.split(sep)` with a one-character separator: never empty. */
  function Split(s: string, sep: char): (fields: seq<string>)
    ensures |fields| >= 1
  {
    if s == [] then [[]]
    else
      var rest := Split(s[1..], sep);
      if s[0] == sep then [[]] + rest
      else [[s[0]] + rest[0]] + rest[1..]
  }

  lemma {:induction false} SplitWithoutSeparator(s: string, sep: char)
    requires sep !in s
    ensures Split(s, sep) == [s]
  {
    if s != [] {
      SplitWithoutSeparator(s[1..], sep);
      assert [s[0]] + s[1..] == s;
    }
  }

  /** The text before the first separator is the first field; splitting resumes after it. */
  lemma {:induction false} SplitFirst(a: string, sep: char, b: string)
    requires sep !in a
    ensures Split(a + [sep] + b, sep) == [a] + Split(b, sep)
  {
    if a == [] {
      assert [sep] + b == a + [sep] + b;
      assert ([sep] + b)[1..] == b;
    } else {
      assert (a + [sep] + b)[1..] == a[1..] + [sep] + b;
      SplitFirst(a[1..], sep, b);
      assert [a[0]] + a[1..] == a;
    }
  }

  /**
   * `hashPassword`: a 16-byte random salt in hex, a colon, the digest under that salt.
   * The stored value splits into exactly the salt and the digest.
   */
  function HashPassword(password: string, saltRandom: seq<byte>, kdf: Kdf): (stored: string)
    requires |saltRandom| == 16
    requires IsHexDigestFunction(kdf)
    ensures var fields := Split(stored, Colon);
      && |fields| == 2
      && |fields[0]| == 32 && IsLowerHex(fields[0])
      && fields[0] == GenerateToken(16, saltRandom)
      && fields[1] == kdf(password, fields[0]) && |fields[1]| == 128
  {
    var salt := GenerateToken(16, saltRandom);
    var digest := kdf(password, salt);
    HexHasNoColon(salt);
    HexHasNoColon(digest);
    SplitFirst(salt, Colon, digest);
    SplitWithoutSeparator(digest, Colon);
    salt + [Colon] + digest
  }

  lemma HexHasNoColon(s: string)
    requires IsLowerHex(s)
    ensures Colon !in s
  {
  }

  /**
   * `verifyPassword`: split on `:`, fail closed when the salt or the digest
   * field is missing or empty, else compare the recomputed digest with the
   * stored one exactly. A missing field (`undefined`) and an empty one are
   * both falsy, so both are the empty string here.
   */
  function VerifyPassword(password: string, stored: string, kdf: Kdf): (ok: bool)
    ensures ok ==> Colon in stored
  {
    var fields := Split(stored, Colon);
    var salt := fields[0];
    var storedHash := if |fields| > 1 then fields[1] else [];
    if Colon !in stored then SplitWithoutSeparator(stored, Colon); false
    else if salt == [] || storedHash == [] then false
    else kdf(password, salt) == storedHash
  }

  /** Password round trip: a freshly hashed password verifies against its own record. */
  lemma VerifyHashed(password: string, saltRandom: seq<byte>, kdf: Kdf)
    requires |saltRandom| == 16 && IsHexDigestFunction(kdf)
    ensures VerifyPassword(password, HashPassword(password, saltRandom, kdf), kdf)
  {
  }

  /** A password whose digest under the stored salt differs is refused. */
  lemma WrongPasswordRefused(password: string, other: string, saltRandom: seq<byte>, kdf: Kdf)
    requires |saltRandom| == 16 && IsHexDigestFunction(kdf)
    requires kdf(other, GenerateToken(16, saltRandom)) != kdf(password, GenerateToken(16, saltRandom))
    ensures !VerifyPassword(other, HashPassword(password, saltRandom, kdf), kdf)
  {
  }

  /** No `:` at all: the record is refused whatever the password. */
  lemma NoSeparatorRefused(password: string, stored: string, kdf: Kdf)
    requires Colon !in stored
    ensures !VerifyPassword(password, stored, kdf)
  {
  }

  /** An empty salt field or an empty digest field is refused whatever the password. */
  lemma EmptyFieldRefused(password: string, salt: string, rest: string, kdf: Kdf)
    requires Colon !in salt
    requires salt == [] || rest == [] || rest[0] == Colon
    ensures !VerifyPassword(password, salt + [Colon] + rest, kdf)
  {
    SplitFirst(salt, Colon, rest);
    if rest != [] && rest[0] == Colon {
      assert rest == [] + [Colon] + rest[1..];
      SplitFirst([], Colon, rest[1..]);
    }
  }

  /** For a well-formed record, verification is exactly digest equality. */
  lemma VerifyIsDigestEquality(password: string, salt: string, digest: string, kdf: Kdf)
    requires Colon !in salt && Colon !in digest && salt != [] && digest != []
    ensures VerifyPassword(password, salt + [Colon] + digest, kdf) == (kdf(password, salt) == digest)
  {
    SplitFirst(salt, Colon, digest);
    SplitWithoutSeparator(digest, Colon);
  }

  /** Only the first two fields are read: anything after a second `:` is ignored. */
  lemma TrailingFieldsIgnored(password: string, salt: string, digest: string, extra: string, kdf: Kdf)
    requires Colon !in salt && Colon !in digest
    ensures VerifyPassword(password, salt + [Colon] + digest + [Colon] + extra, kdf)
         == VerifyPassword(password, salt + [Colon] + digest, kdf)
  {
    assert salt + [Colon] + digest + [Colon] + extra == salt + [Colon] + (digest + [Colon] + extra);
    SplitFirst(salt, Colon, digest + [Colon] + extra);
    SplitFirst(digest, Colon, extra);
    SplitFirst(salt, Colon, digest);
    SplitWithoutSeparator(digest, Colon);
  }

  /** `generateSessionToken`: 32 random bytes in hex, computed from nothing but the randomness. */
  function GenerateSessionToken(random: seq<byte>): (token: string)
    requires |random| == 32
    ensures |token| == 64 && IsLowerHex(token)
  {
    GenerateToken(32, random)
  }
}
