/**
 * Placement of out-of-band markup tags between tokens. The k tags queued
 * after the token at `anchor` (or before the first token, anchor 0) are
 * stored only in the word map, the i-th of them (0-based) at the fractional
 * key anchor + (i+1)/(k+1). Keys are exact rationals here.
 */
module Markup {

  /** A key addresses a token (integral) rather than a tag. */
  predicate IsInteger(r: real) {
    r.Floor as real == r
  }

  /** The key of the i-th (0-based) of k tags queued at `anchor`. */
  function TagKey(anchor: int, i: nat, k: nat): (key: real)
    requires i < k
    ensures anchor as real < key < (anchor + 1) as real
  {
    var offset := (i + 1) as real / (k + 1) as real;
    assert 0.0 < offset < 1.0 by {
      assert offset * (k + 1) as real == (i + 1) as real;
    }
    anchor as real + offset
  }

  /** A tag key is never an integer: it never collides with a token's key, and its floor is its anchor. */
  lemma TagKeyNotInteger(anchor: int, i: nat, k: nat)
    requires i < k
    ensures TagKey(anchor, i, k).Floor == anchor
    ensures !IsInteger(TagKey(anchor, i, k))
  {
  }

  /** The tags queued at one anchor keep their list order. */
  lemma TagKeysIncrease(anchor: int, i: nat, j: nat, k: nat)
    requires i < j < k
    ensures TagKey(anchor, i, k) < TagKey(anchor, j, k)
  {
    var d := (k + 1) as real;
    var a := (i + 1) as real / d;
    var b := (j + 1) as real / d;
    assert a * d == (i + 1) as real;
    assert b * d == (j + 1) as real;
    assert (b - a) * d == (j - i) as real;
    assert b - a > 0.0;
    assert TagKey(anchor, i, k) == anchor as real + a;
    assert TagKey(anchor, j, k) == anchor as real + b;
  }

  /** Two tag keys are equal only for the same anchor, and, in one batch, for the same position. */
  lemma TagKeyInjective(a: int, i: nat, k: nat, b: int, j: nat, l: nat)
    requires i < k && j < l
    requires TagKey(a, i, k) == TagKey(b, j, l)
    ensures a == b
    ensures k == l ==> i == j
  {
    TagKeyNotInteger(a, i, k);
    TagKeyNotInteger(b, j, l);
    if k == l && i != j {
      if i < j {
        TagKeysIncrease(a, i, j, k);
      } else {
        TagKeysIncrease(a, j, i, k);
      }
    }
  }

  /** Three tags queued after token 2 land at 2.25, 2.5 and 2.75. */
  lemma ThreeTagsAfterTokenTwo()
    ensures TagKey(2, 0, 3) == 2.25 && TagKey(2, 1, 3) == 2.5 && TagKey(2, 2, 3) == 2.75
  {
  }
}
