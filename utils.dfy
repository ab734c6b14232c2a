/**
 * Helpers of internal/utils/utils.go: the membership test used to validate
 * the gender, and the session-token derivation. The MD5 digest itself is
 * not modelled: every function that needs it takes the digest as a
 * parameter `md5`, a deterministic map from strings to 16-byte digests.
 */
module Utils {

  newtype byte = x: int | 0 <= x < 256

  /** An MD5 digest: always 16 bytes. */
  type Digest = d: seq<byte> | |d| == 16 witness [0, 0, 0, 0, 0, 0, 0, 0, 0, 0, 0, 0, 0, 0, 0, 0]

  /** Contains: linear search with early return. */
  method Contains(source: seq<string>, tg: string) returns (found: bool)
    ensures found <==> tg in source
  {
    for i := 0 to |source|
      invariant tg !in source[..i]
    {
      if source[i] == tg {
        return true;
      }
    }
    return false;
  }

  // ---------------------------------------------------------------------
  // Lower-case hexadecimal encoding, as encoding/hex.EncodeToString.

  predicate IsHexDigit(c: char) {
    '0' <= c <= '9' || 'a' <= c <= 'f'
  }

  predicate IsHexString(s: string) {
    forall i :: 0 <= i < |s| ==> IsHexDigit(s[i])
  }

  function HexChar(n: int): (c: char)
    requires 0 <= n < 16
    ensures IsHexDigit(c)
  {
    if n < 10 then ('0' as int + n) as char else ('a' as int + n - 10) as char
  }

  function HexValue(c: char): (n: int)
    requires IsHexDigit(c)
    ensures 0 <= n < 16
    ensures HexChar(n) == c
  {
    if '0' <= c <= '9' then c as int - '0' as int else c as int - 'a' as int + 10
  }

  /** Each byte becomes two digits, high nibble first. */
  function HexEncode(d: seq<byte>): (s: string)
    ensures |s| == 2 * |d|
    ensures IsHexString(s)
  {
    if d == [] then ""
    else [HexChar(d[0] as int / 16), HexChar(d[0] as int % 16)] + HexEncode(d[1..])
  }

  /** The inverse of HexEncode on well-formed input. */
  function HexDecode(s: string): (d: seq<byte>)
    requires |s| % 2 == 0 && IsHexString(s)
    ensures |d| * 2 == |s|
  {
    if s == [] then []
    else [(HexValue(s[0]) * 16 + HexValue(s[1])) as byte] + HexDecode(s[2..])
  }

  lemma {:induction false} HexRoundTrip(d: seq<byte>)
    ensures HexDecode(HexEncode(d)) == d
  {
    if d != [] {
      var s := HexEncode(d);
      var hi, lo := d[0] as int / 16, d[0] as int % 16;
      assert s[0] == HexChar(hi) && s[1] == HexChar(lo);
      HexCharValue(hi);
      HexCharValue(lo);
      assert s[2..] == HexEncode(d[1..]);
      HexRoundTrip(d[1..]);
    }
  }

  lemma HexCharValue(n: int)
    requires 0 <= n < 16
    ensures HexValue(HexChar(n)) == n
  {
  }

  /** Distinct digests give distinct hex strings. */
  lemma HexEncodeInjective(a: seq<byte>, b: seq<byte>)
    ensures HexEncode(a) == HexEncode(b) <==> a == b
  {
    if HexEncode(a) == HexEncode(b) {
      HexRoundTrip(a);
      HexRoundTrip(b);
    }
  }

  // ---------------------------------------------------------------------
  // Digests and session tokens.

  /** Md5String: the hex encoding of the digest of `s`. */
  function Md5String(md5: string -> Digest, s: string): (h: string)
    ensures |h| == 32
    ensures IsHexString(h)
  {
    HexEncode(md5(s))
  }

  /** The string GenerateSession hashes: Sprintf("%s:%s", userName, "session"). */
  function SessionSeed(userName: string): (seed: string)
    ensures |seed| == |userName| + 8
    ensures seed[..|userName|] == userName
  {
    userName + ":session"
  }

  /** GenerateSession: a deterministic token that depends on the user name alone. */
  function GenerateSession(md5: string -> Digest, userName: string): (token: string)
    ensures |token| == 32
    ensures IsHexString(token)
  {
    Md5String(md5, SessionSeed(userName))
  }

  /**
   * Two names share a token exactly when their seeds share a digest: the
   * hex step loses nothing, and distinct names give distinct seeds.
   */
  lemma SessionCollision(md5: string -> Digest, a: string, b: string)
    ensures GenerateSession(md5, a) == GenerateSession(md5, b)
            <==> md5(SessionSeed(a)) == md5(SessionSeed(b))
    ensures a != b ==> SessionSeed(a) != SessionSeed(b)
  {
    HexEncodeInjective(md5(SessionSeed(a)), md5(SessionSeed(b)));
    if SessionSeed(a) == SessionSeed(b) {
      assert |a| == |b|;
      assert a == SessionSeed(a)[..|a|];
    }
  }
}
