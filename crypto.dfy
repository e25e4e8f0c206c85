/**
 * bcrypt as the handlers use it: `bcrypt.hash(password, 10)` draws a fresh
 * salt and returns "$2a$10$" + salt + digest; `bcrypt.compare(p, h)` re-hashes
 * `p` with the salt stored in `h` and compares. The digest is idealised as an
 * injective function of the password: the model states what the handlers rely
 * on (a password matches exactly the hashes made from it), not one-wayness.
 */
module Crypto {

  /** Version and cost factor (10 rounds) of every hash the handlers produce. */
  const HashPrefix: string := "$2a$10$"

  /** bcrypt's salt: 22 characters of its base-64 alphabet, drawn at random per call. */
  type Salt = s: string | |s| == 22 witness "AAAAAAAAAAAAAAAAAAAAAA"

  /** The idealised digest of a password under a salt. */
  function Digest(salt: Salt, password: string): string {
    password
  }

  /** `bcrypt.hash(password, 10)` with the salt it drew. */
  function Hash(password: string, salt: Salt): (h: string)
    ensures |h| == |HashPrefix| + 22 + |password|
    ensures h[..|HashPrefix|] == HashPrefix && h[|HashPrefix|..|HashPrefix| + 22] == salt
  {
    HashPrefix + salt + Digest(salt, password)
  }

  /** `bcrypt.compare(password, h)`: re-hash with the salt read back from `h`. */
  predicate Compare(password: string, h: string) {
    |h| >= |HashPrefix| + 22 && h[..|HashPrefix|] == HashPrefix
    && Hash(password, h[|HashPrefix|..|HashPrefix| + 22]) == h
  }

  /** A password matches exactly the hashes made from it, whatever salt was drawn. */
  lemma CompareHash(p: string, q: string, salt: Salt)
    ensures Compare(p, Hash(q, salt)) <==> p == q
  {
    var h := Hash(q, salt);
    assert h[|HashPrefix|..|HashPrefix| + 22] == salt;
    if Compare(p, h) {
      assert HashPrefix + salt + p == HashPrefix + salt + q;
      assert p == (HashPrefix + salt + p)[29..];
      assert q == (HashPrefix + salt + q)[29..];
    }
  }
}
