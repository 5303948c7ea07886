/** Bearer tokens: a class prefix followed by the URL-safe text of `secrets.token_urlsafe(32)`.
    The random suffix is an input of every handler that mints a key. */
module Secrets {

  /** Prefix of user-scoped API keys. */
  const UserKeyPrefix: string := "mk_live_"

  /** Prefix of project-scoped API keys. */
  const ProjectKeyPrefix: string := "mk_proj_"

  /** The base64url alphabet. */
  predicate UrlSafeChar(c: char) {
    'A' <= c <= 'Z' || 'a' <= c <= 'z' || '0' <= c <= '9' || c == '-' || c == '_'
  }

  /** What `secrets.token_urlsafe(32)` yields: 32 bytes in base64url without padding, 43 characters. */
  predicate UrlSafeSuffix(s: string) {
    |s| == 43 && forall i :: 0 <= i < |s| ==> UrlSafeChar(s[i])
  }

  /** The key `f"{prefix}{suffix}"`. */
  function Token(prefix: string, suffix: string): string {
    prefix + suffix
  }

  /** A token of class `prefix`: the prefix, then 43 URL-safe characters. */
  predicate TokenShape(prefix: string, t: string) {
    |t| == |prefix| + 43 && t[..|prefix|] == prefix && UrlSafeSuffix(t[|prefix|..])
  }

  /** Every minted token has the shape of its class. */
  lemma TokenHasShape(prefix: string, suffix: string)
    requires UrlSafeSuffix(suffix)
    ensures TokenShape(prefix, Token(prefix, suffix))
  {
    var t := Token(prefix, suffix);
    assert t[..|prefix|] == prefix;
    assert t[|prefix|..] == suffix;
  }

  /** Two tokens of one class are equal only when their random suffixes are. */
  lemma TokenInjective(prefix: string, a: string, b: string)
    requires Token(prefix, a) == Token(prefix, b)
    ensures a == b
  {
    assert a == Token(prefix, a)[|prefix|..];
    assert b == Token(prefix, b)[|prefix|..];
  }

  /** A user key can never equal a project key, whatever the suffixes. */
  lemma UserAndProjectKeysDiffer(a: string, b: string)
    ensures Token(UserKeyPrefix, a) != Token(ProjectKeyPrefix, b)
  {
    assert Token(UserKeyPrefix, a)[3] == 'l';
    assert Token(ProjectKeyPrefix, b)[3] == 'p';
  }
}
