/** The hash function the chain is built on, as an arbitrary function into 64 hexadecimal digits. */
module Hashing {

  const DIGEST_LENGTH: nat := 64

  predicate IsHexDigit(c: char) {
    '0' <= c <= '9' || 'a' <= c <= 'f'
  }

  predicate IsDigest(d: string) {
    |d| == DIGEST_LENGTH && forall i | 0 <= i < |d| :: IsHexDigit(d[i])
  }

  ghost predicate ReturnsDigests(h: string -> string) {
    forall s :: IsDigest(h(s))
  }

  /** `sha256`: nothing is known of it but the shape of its results. It need not be injective
      (no such function is), so results about it name the strings whose digests clash. */
  type Hasher = h: string -> string | ReturnsDigests(h) ghost witness (s: string) => seq(DIGEST_LENGTH, _ => '0')

  lemma DigestShape(h: Hasher, s: string)
    ensures IsDigest(h(s))
  {
    var f: string -> string := h;
    assert ReturnsDigests(f);
    assert IsDigest(f(s));
  }

  ghost predicate Clash(h: Hasher, x: string, y: string) {
    x != y && h(x) == h(y)
  }

  /** Some string of `xs` and a different string of `ys` have the same digest. */
  ghost predicate ClashBetween(h: Hasher, xs: set<string>, ys: set<string>) {
    exists x, y | x in xs && y in ys :: Clash(h, x, y)
  }

  /** No two different strings of `xs` have the same digest. */
  ghost predicate ClashFree(h: Hasher, xs: set<string>) {
    !ClashBetween(h, xs, xs)
  }

  lemma ClashWitness(h: Hasher, x: string, y: string, xs: set<string>, ys: set<string>)
    requires x in xs && y in ys && h(x) == h(y) && x != y
    ensures ClashBetween(h, xs, ys)
  {
    assert Clash(h, x, y);
  }
}
