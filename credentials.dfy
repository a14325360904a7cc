/** Password hashing and access tokens (server/app/utils/auth.py). bcrypt and the
    JWT library are outside the model: a hash is a symbolic value that remembers
    its password, and a token carries its subject claim only. */
module Credentials {
  import opened Records

  /** A signed JWT, reduced to its `sub` claim. */
  datatype AccessToken = Jwt(sub: string)

  /** The body of a successful login: {access_token, token_type}. */
  datatype Token = Token(accessToken: AccessToken, tokenType: string)

  function Hash(password: string): PasswordHash
  {
    Hashed(password)
  }

  predicate VerifyPassword(password: string, hash: PasswordHash)
  {
    hash == Hash(password)
  }

  function CreateAccessToken(sub: string): AccessToken
  {
    Jwt(sub)
  }

  predicate IsDigits(s: string)
  {
    forall i :: 0 <= i < |s| ==> '0' <= s[i] <= '9'
  }

  function DigitChar(d: nat): (c: char)
    requires d < 10
    ensures '0' <= c <= '9'
  {
    ('0' as int + d) as char
  }

  /** Python's str() of a non-negative int: its decimal digits, no leading zero. */
  function NatToString(n: nat): (s: string)
    ensures |s| > 0 && IsDigits(s)
    ensures |s| > 1 ==> s[0] != '0'
    decreases n
  {
    if n < 10 then [DigitChar(n)]
    else NatToString(n / 10) + [DigitChar(n % 10)]
  }

  /** Python's int() on a string of decimal digits. */
  function ParseNat(s: string): nat
    requires IsDigits(s)
  {
    if s == [] then 0
    else ParseNat(s[..|s| - 1]) * 10 + (s[|s| - 1] as int - '0' as int)
  }

  /** Reading a token's subject back as an int gives the id it was made from. */
  lemma {:induction false} ParseNatToString(n: nat)
    ensures ParseNat(NatToString(n)) == n
  {
    var s := NatToString(n);
    if n >= 10 {
      ParseNatToString(n / 10);
      assert s[..|s| - 1] == NatToString(n / 10);
    }
  }

  /** Different users get different subjects. */
  lemma NatToStringInjective(m: nat, n: nat)
    requires NatToString(m) == NatToString(n)
    ensures m == n
  {
    ParseNatToString(m);
    ParseNatToString(n);
  }
}
