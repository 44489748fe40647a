/** Digests and what counts as a collision between two runs of the hash function. */
module Digests {

  predicate IsLowerHex(c: char) {
    '0' <= c <= '9' || 'a' <= c <= 'f'
  }

  predicate IsDigest(s: string) {
    |s| == 64 && forall i :: 0 <= i < |s| ==> IsLowerHex(s[i])
  }

  /** What crypto::sha256 returns: 64 lowercase hex characters. */
  type Digest = s: string | IsDigest(s) witness seq(64, _ => '0')

  /** SHA-256 itself is foreign code: any function from byte strings to digests. */
  type Sha = string -> Digest

  /** Two different strings, one hashed on each side, with the same digest. The sets keep the
      statement meaningful: the strings are ones that the two computations really hashed. */
  ghost predicate CollisionBetween(sha: Sha, xs: set<string>, ys: set<string>) {
    exists x, y :: x in xs && y in ys && x != y && sha(x) == sha(y)
  }

  lemma CollisionGrows(sha: Sha, xs: set<string>, ys: set<string>, xs': set<string>, ys': set<string>)
    requires CollisionBetween(sha, xs, ys)
    requires xs <= xs' && ys <= ys'
    ensures CollisionBetween(sha, xs', ys')
  {
    var x, y :| x in xs && y in ys && x != y && sha(x) == sha(y);
    assert x in xs' && y in ys';
  }

  /** Equal digests mean equal strings, unless a collision has been found. */
  lemma SameDigest(sha: Sha, x: string, y: string, xs: set<string>, ys: set<string>)
    requires x in xs && y in ys && sha(x) == sha(y)
    ensures x == y || CollisionBetween(sha, xs, ys)
  {
  }

  /** Digests have a fixed width, so a concatenated pair splits in one way only. */
  lemma PairSplits(a: Digest, b: Digest, c: Digest, d: Digest)
    requires a + b == c + d
    ensures a == c && b == d
  {
    assert (a + b)[..64] == a && (c + d)[..64] == c;
    assert (a + b)[64..] == b && (c + d)[64..] == d;
  }
}
