/**
 * The token codec of lib/tokens.ts: opaque lowercase hex credentials,
 * their hyphen-grouped uppercase display form, cleaning and format checks.
 *
 * Randomness (`crypto.randomBytes`) is a parameter: the generators receive
 * the random bytes and hex-encode them.
 */
module Tokens {

  /** A byte as produced by `crypto.randomBytes`. */
  newtype byte = x: int | 0 <= x < 256

  // ---------------------------------------------------------------------
  // Characters and case mapping (ASCII; see README "Left out")
  // ---------------------------------------------------------------------

  predicate IsLowerHexChar(c: char) {
    '0' <= c <= '9' || 'a' <= c <= 'f'
  }

  /** The class `[a-f0-9]` under the regular expression's `i` flag. */
  predicate IsHexCharIgnoringCase(c: char) {
    IsLowerHexChar(c) || 'A' <= c <= 'F'
  }

  predicate IsLowerHex(s: string) {
    forall i :: 0 <= i < |s| ==> IsLowerHexChar(s[i])
  }

  predicate IsUpperLetter(c: char) {
    'A' <= c <= 'Z'
  }

  predicate IsLowerLetter(c: char) {
    'a' <= c <= 'z'
  }

  function LowerChar(c: char): char {
    if IsUpperLetter(c) then (c as int + 32) as char else c
  }

  function UpperChar(c: char): char {
    if IsLowerLetter(c) then (c as int - 32) as char else c
  }

  /** `String.prototype.toLowerCase` on the ASCII range. */
  function Lower(s: string): string {
    seq(|s|, i requires 0 <= i < |s| => LowerChar(s[i]))
  }

  /** `String.prototype.toUpperCase` on the ASCII range. */
  function Upper(s: string): string {
    seq(|s|, i requires 0 <= i < |s| => UpperChar(s[i]))
  }

  // ---------------------------------------------------------------------
  // generateToken and the two fixed-size generators (lib/tokens.ts:8-10, 50-66)
  // ---------------------------------------------------------------------

  function HexDigit(n: int): (c: char)
    requires 0 <= n < 16
    ensures IsLowerHexChar(c)
  {
    if n < 10 then ('0' as int + n) as char else ('a' as int + n - 10) as char
  }

  /** `Buffer.toString('hex')`: two lowercase digits per byte, high nibble first. */
  function HexEncode(bytes: seq<byte>): (hex: string)
    ensures |hex| == 2 * |bytes|
    ensures IsLowerHex(hex)
  {
    if bytes == [] then []
    else [HexDigit(bytes[0] as int / 16), HexDigit(bytes[0] as int % 16)] + HexEncode(bytes[1..])
  }

  lemma HexDigitInjective(m: int, n: int)
    requires 0 <= m < 16 && 0 <= n < 16
    requires HexDigit(m) == HexDigit(n)
    ensures m == n
  {
  }

  /** Distinct random bytes give distinct tokens: the encoding loses nothing. */
  lemma {:induction false} HexEncodeInjective(a: seq<byte>, b: seq<byte>)
    requires HexEncode(a) == HexEncode(b)
    ensures a == b
  {
    if a != [] {
      var ha, hb := HexEncode(a), HexEncode(b);
      assert ha[0] == hb[0] && ha[1] == hb[1];
      HexDigitInjective(a[0] as int / 16, b[0] as int / 16);
      HexDigitInjective(a[0] as int % 16, b[0] as int % 16);
      assert a[0] == b[0];
      assert ha[2..] == HexEncode(a[1..]);
      assert hb[2..] == HexEncode(b[1..]);
      HexEncodeInjective(a[1..], b[1..]);
    }
  }

  /** `generateToken(length)`: `length` random bytes, hex-encoded. */
  function GenerateToken(length: nat, random: seq<byte>): (token: string)
    requires |random| == length
    ensures |token| == 2 * length
    ensures IsLowerHex(token)
  {
    HexEncode(random)
  }

  datatype TableTokens = TableTokens(tableToken: string, masterToken: string)

  /** `generateTableTokens`: a 16-byte shared token and an independent 24-byte master token. */
  function GenerateTableTokens(sharedRandom: seq<byte>, masterRandom: seq<byte>): (tokens: TableTokens)
    requires |sharedRandom| == 16 && |masterRandom| == 24
    ensures |tokens.tableToken| == 32 && IsLowerHex(tokens.tableToken)
    ensures |tokens.masterToken| == 48 && IsLowerHex(tokens.masterToken)
    ensures IsValidTokenFormat(tokens.tableToken) && CleanToken(tokens.tableToken) == tokens.tableToken
    ensures IsValidTokenFormat(tokens.masterToken) && CleanToken(tokens.masterToken) == tokens.masterToken
  {
    var shared := GenerateToken(16, sharedRandom);
    var master := GenerateToken(24, masterRandom);
    LowerHexIsClean(shared);
    LowerHexIsClean(master);
    TableTokens(shared, master)
  }

  /** `generateCharacterToken`: 16 random bytes, hex-encoded. */
  function GenerateCharacterToken(random: seq<byte>): (token: string)
    requires |random| == 16
    ensures |token| == 32 && IsLowerHex(token)
    ensures IsValidTokenFormat(token) && CleanToken(token) == token
  {
    var token := GenerateToken(16, random);
    LowerHexIsClean(token);
    token
  }

  // ---------------------------------------------------------------------
  // cleanToken (lib/tokens.ts:31-33)
  // ---------------------------------------------------------------------

  /** `s.replace(/-/g, '')`. */
  function RemoveHyphens(s: string): (r: string)
    ensures '-' !in r
    ensures |r| <= |s|
  {
    if s == [] then []
    else if s[0] == '-' then RemoveHyphens(s[1..])
    else [s[0]] + RemoveHyphens(s[1..])
  }

  /** `cleanToken`: the hyphens removed, then lowercased. */
  function CleanToken(formattedToken: string): (cleaned: string)
    ensures '-' !in cleaned
    ensures forall i :: 0 <= i < |cleaned| ==> !IsUpperLetter(cleaned[i])
  {
    var r := RemoveHyphens(formattedToken);
    assert forall i :: 0 <= i < |r| ==> Lower(r)[i] == LowerChar(r[i]);
    Lower(r)
  }

  lemma {:induction false} RemoveHyphensOfHyphenFree(s: string)
    requires '-' !in s
    ensures RemoveHyphens(s) == s
  {
    if s != [] {
      assert s == [s[0]] + s[1..];
      RemoveHyphensOfHyphenFree(s[1..]);
    }
  }

  lemma {:induction false} RemoveHyphensAppend(a: string, b: string)
    ensures RemoveHyphens(a + b) == RemoveHyphens(a) + RemoveHyphens(b)
  {
    if a != [] {
      assert (a + b)[1..] == a[1..] + b;
      RemoveHyphensAppend(a[1..], b);
    } else {
      assert a + b == b;
    }
  }

  /** A character other than `-` survives hyphen removal. */
  lemma {:induction false} RemoveHyphensKeeps(s: string, i: nat)
    requires i < |s| && s[i] != '-'
    ensures s[i] in RemoveHyphens(s)
  {
    if i > 0 {
      RemoveHyphensKeeps(s[1..], i - 1);
    }
  }

  lemma {:induction false} RemoveHyphensUpper(s: string)
    ensures RemoveHyphens(Upper(s)) == Upper(RemoveHyphens(s))
  {
    if s != [] {
      assert Upper(s)[1..] == Upper(s[1..]);
      assert Upper(s)[0] == UpperChar(s[0]);
      RemoveHyphensUpper(s[1..]);
      if s[0] != '-' {
        assert Upper([s[0]] + RemoveHyphens(s[1..])) == [UpperChar(s[0])] + Upper(RemoveHyphens(s[1..]));
      }
    }
  }

  lemma LowerUpper(s: string)
    ensures Lower(Upper(s)) == Lower(s)
  {
  }

  /** Lowercase hex is already clean. */
  lemma LowerHexIsClean(s: string)
    requires IsLowerHex(s)
    ensures CleanToken(s) == s
  {
    assert forall i :: 0 <= i < |s| ==> s[i] != '-';
    RemoveHyphensOfHyphenFree(s);
  }

  /** `cleanToken` is idempotent. */
  lemma CleanIdempotent(s: string)
    ensures CleanToken(CleanToken(s)) == CleanToken(s)
  {
    var c := CleanToken(s);
    RemoveHyphensOfHyphenFree(c);
    assert forall i :: 0 <= i < |c| ==> LowerChar(c[i]) == c[i];
  }

  // ---------------------------------------------------------------------
  // isValidTokenFormat (lib/tokens.ts:40-44)
  // ---------------------------------------------------------------------

  /**
   * `/^[a-f0-9]{16,64}$/i` on the cleaned token. Because the cleaned token has
   * no upper-case letters, the `i` flag changes nothing: the token is valid
   * exactly when the cleaned form is 16 to 64 lowercase hex digits.
   */
  function IsValidTokenFormat(token: string): (valid: bool)
    ensures valid <==> 16 <= |CleanToken(token)| <= 64 && IsLowerHex(CleanToken(token))
  {
    var cleaned := CleanToken(token);
    16 <= |cleaned| <= 64 && forall i :: 0 <= i < |cleaned| ==> IsHexCharIgnoringCase(cleaned[i])
  }

  /** Any character that is neither a hex digit nor `-` (a space, `g`, `:`) makes a token invalid. */
  lemma NonHexCharRejected(token: string, i: nat)
    requires i < |token|
    requires token[i] != '-' && !IsHexCharIgnoringCase(token[i])
    ensures !IsValidTokenFormat(token)
  {
    var r := RemoveHyphens(token);
    RemoveHyphensKeeps(token, i);
    var j :| 0 <= j < |r| && r[j] == token[i];
    assert CleanToken(token)[j] == LowerChar(token[i]);
    assert !IsLowerHexChar(LowerChar(token[i]));
  }

  // ---------------------------------------------------------------------
  // formatToken (lib/tokens.ts:18-24)
  // ---------------------------------------------------------------------

  /**
   * The slices `token.slice(i, i + chunkSize)` for i = 0, chunkSize, 2*chunkSize, ...
   * With a chunk size of 0 the source loop only terminates on the empty token.
   */
  function Chunks(token: string, chunkSize: nat): seq<string>
    requires chunkSize > 0 || token == []
    decreases |token|
  {
    if token == [] then []
    else if |token| <= chunkSize then [token]
    else [token[..chunkSize]] + Chunks(token[chunkSize..], chunkSize)
  }

  /** `Array.prototype.join(sep)`. */
  function Join(parts: seq<string>, sep: char): string {
    if parts == [] then []
    else if |parts| == 1 then parts[0]
    else parts[0] + [sep] + Join(parts[1..], sep)
  }

  function Concat(parts: seq<string>): string {
    if parts == [] then [] else parts[0] + Concat(parts[1..])
  }

  /** The display form `formatToken(token, chunkSize)` computes. */
  function Formatted(token: string, chunkSize: nat): string
    requires chunkSize > 0 || token == []
  {
    Upper(Join(Chunks(token, chunkSize), '-'))
  }

  /** `formatToken`: the loop pushes each slice, then the chunks are joined with `-` and uppercased. */
  method FormatToken(token: string, chunkSize: nat := 4) returns (formatted: string)
    requires chunkSize > 0 || token == []
    ensures formatted == Formatted(token, chunkSize)
  {
    var chunks: seq<string> := [];
    var i := 0;
    while i < |token|
      invariant 0 <= i
      invariant i < |token| ==> chunks + Chunks(token[i..], chunkSize) == Chunks(token, chunkSize)
      invariant i >= |token| ==> chunks == Chunks(token, chunkSize)
      decreases |token| - i
    {
      var end := if i + chunkSize <= |token| then i + chunkSize else |token|;
      ghost var rest := token[i..];
      if |rest| > chunkSize {
        assert rest[..chunkSize] == token[i..end];
        assert rest[chunkSize..] == token[i + chunkSize..];
      } else {
        assert rest == token[i..end];
      }
      chunks := chunks + [token[i..end]];
      i := i + chunkSize;
    }
    formatted := Upper(Join(chunks, '-'));
  }

  /** The chunks put back together give the token. */
  lemma {:induction false} ChunksConcat(token: string, chunkSize: nat)
    requires chunkSize > 0
    ensures Concat(Chunks(token, chunkSize)) == token
    decreases |token|
  {
    if |token| > chunkSize {
      ChunksConcat(token[chunkSize..], chunkSize);
      assert token == token[..chunkSize] + token[chunkSize..];
    }
  }

  /** Every chunk has `chunkSize` characters except the last, which has 1 to `chunkSize`. */
  lemma {:induction false} ChunksLengths(token: string, chunkSize: nat)
    requires chunkSize > 0
    ensures var cs := Chunks(token, chunkSize);
      && (forall i :: 0 <= i < |cs| - 1 ==> |cs[i]| == chunkSize)
      && (cs != [] ==> 1 <= |cs[|cs| - 1]| <= chunkSize)
      && (cs == [] <==> token == [])
    decreases |token|
  {
    if |token| > chunkSize {
      ChunksLengths(token[chunkSize..], chunkSize);
    }
  }

  lemma {:induction false} RemoveHyphensJoin(parts: seq<string>)
    ensures RemoveHyphens(Join(parts, '-')) == RemoveHyphens(Concat(parts))
  {
    if |parts| == 1 {
      assert parts[1..] == [];
      assert Concat(parts) == parts[0];
    } else if |parts| > 1 {
      RemoveHyphensJoin(parts[1..]);
      RemoveHyphensAppend(parts[0] + ['-'], Join(parts[1..], '-'));
      RemoveHyphensAppend(parts[0], ['-']);
      RemoveHyphensAppend(parts[0], Concat(parts[1..]));
    }
  }

  /** Removing the hyphens from the display form gives the token (without its own hyphens) in upper case. */
  lemma FormattedWithoutHyphens(token: string, chunkSize: nat)
    requires chunkSize > 0
    ensures RemoveHyphens(Formatted(token, chunkSize)) == Upper(RemoveHyphens(token))
  {
    var cs := Chunks(token, chunkSize);
    RemoveHyphensUpper(Join(cs, '-'));
    RemoveHyphensJoin(cs);
    ChunksConcat(token, chunkSize);
  }

  /** For a hyphen-free token: removing the hyphens of the display form gives the token uppercased. */
  lemma FormattedWithoutHyphensRaw(token: string, chunkSize: nat)
    requires chunkSize > 0 && '-' !in token
    ensures RemoveHyphens(Formatted(token, chunkSize)) == Upper(token)
  {
    FormattedWithoutHyphens(token, chunkSize);
    RemoveHyphensOfHyphenFree(token);
  }

  /** Cleaning the display form is the same as cleaning the token. */
  lemma CleanFormatted(token: string, chunkSize: nat)
    requires chunkSize > 0
    ensures CleanToken(Formatted(token, chunkSize)) == CleanToken(token)
  {
    FormattedWithoutHyphens(token, chunkSize);
    LowerUpper(RemoveHyphens(token));
  }

  /** `cleanToken(formatToken(t))` is `t` lowercased, and `t` itself for a lowercase hex token. */
  lemma CleanFormattedRaw(token: string, chunkSize: nat)
    requires chunkSize > 0 && '-' !in token
    ensures CleanToken(Formatted(token, chunkSize)) == Lower(token)
    ensures IsLowerHex(token) ==> CleanToken(Formatted(token, chunkSize)) == token
  {
    CleanFormatted(token, chunkSize);
    RemoveHyphensOfHyphenFree(token);
  }

  /** A formatted token's display form is never empty when the token is not. */
  lemma FormattedNotEmpty(token: string, chunkSize: nat)
    requires chunkSize > 0 && token != [] && '-' !in token
    ensures Formatted(token, chunkSize) != []
  {
  }

  /** The display form and the raw form are accepted alike. */
  lemma ValidFormatOfFormatted(token: string, chunkSize: nat)
    requires chunkSize > 0
    ensures IsValidTokenFormat(Formatted(token, chunkSize)) == IsValidTokenFormat(token)
  {
    CleanFormatted(token, chunkSize);
  }

  /** A generated token survives the display round trip and is accepted in both forms. */
  lemma GeneratedRoundTrip(length: nat, random: seq<byte>, chunkSize: nat)
    requires |random| == length && chunkSize > 0
    ensures CleanToken(Formatted(GenerateToken(length, random), chunkSize)) == GenerateToken(length, random)
    ensures 8 <= length <= 32 ==>
      IsValidTokenFormat(GenerateToken(length, random)) && IsValidTokenFormat(Formatted(GenerateToken(length, random), chunkSize))
  {
    var t := GenerateToken(length, random);
    assert forall i :: 0 <= i < |t| ==> t[i] != '-';
    CleanFormattedRaw(t, chunkSize);
    LowerHexIsClean(t);
    ValidFormatOfFormatted(t, chunkSize);
  }
}
