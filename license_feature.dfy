/**
 * `EnumLicenseFeature`: a `long` flags enumeration. Each product feature is
 * one bit; `All` and the two SKUs are unions of them, and a set of features
 * includes another when every bit of the second is in the first.
 *
 * A flags value is held as its unsigned value, and `&` and `|` are computed
 * bit by bit from the lowest bit up.
 */
module LicenseFeature {

  type Features = nat

  /** `a & b`. */
  function And(a: Features, b: Features): (r: Features)
    ensures r <= a && r <= b
  {
    if a == 0 || b == 0 then 0
    else 2 * And(a / 2, b / 2) + (if a % 2 == 1 && b % 2 == 1 then 1 else 0)
  }

  /** `a | b`. */
  function Or(a: Features, b: Features): (r: Features)
    ensures r >= a && r >= b
  {
    if a == 0 then b
    else if b == 0 then a
    else 2 * Or(a / 2, b / 2) + (if a % 2 == 1 || b % 2 == 1 then 1 else 0)
  }

  function Pow2(n: nat): (p: nat)
    ensures p >= 1
  {
    if n == 0 then 1 else 2 * Pow2(n - 1)
  }

  /** `1 << i`. */
  function Bit(i: nat): Features {
    Pow2(i)
  }

  const NONE: Features := 0
  const PREMIUM: Features := Bit(0)
  const TEXT: Features := Bit(1)
  const CLIENT: Features := Bit(2)
  const COMMON: Features := Bit(3)
  const REDIS: Features := Bit(4)
  const ORMLITE: Features := Bit(5)
  const SERVICESTACK: Features := Bit(6)
  const SERVER: Features := Bit(7)
  const RAZOR: Features := Bit(8)
  const ADMIN: Features := Bit(9)
  const ALL: Features :=
    Or(Or(Or(Or(Or(Or(Or(Or(Or(PREMIUM, TEXT), CLIENT), COMMON), REDIS), ORMLITE), SERVICESTACK), SERVER), RAZOR), ADMIN)
  const REDIS_SKU: Features := Or(REDIS, TEXT)
  const ORMLITE_SKU: Features := Or(ORMLITE, TEXT)
  const FREE: Features := NONE

  /** `(want & have) == want`: every bit of `want` is set in `have`. */
  predicate Includes(have: Features, want: Features) {
    And(want, have) == want
  }

  /** The named values: bits 0 to 9 are 1 to 512, `All` is 1023, the SKUs 18 and 34, `None` and `Free` 0. */
  lemma FeatureValues()
    ensures PREMIUM == 1 && TEXT == 2 && CLIENT == 4 && COMMON == 8 && REDIS == 16
    ensures ORMLITE == 32 && SERVICESTACK == 64 && SERVER == 128 && RAZOR == 256 && ADMIN == 512
    ensures ALL == 1023 && REDIS_SKU == 18 && ORMLITE_SKU == 34
    ensures NONE == 0 && FREE == NONE
  {
  }

  /** Two different single bits have no bit in common. */
  lemma {:induction false} DistinctBits(i: nat, j: nat)
    requires i != j
    ensures And(Bit(i), Bit(j)) == 0
    decreases i + j
  {
    if i > 0 && j > 0 {
      DistinctBits(i - 1, j - 1);
      assert Bit(i) / 2 == Bit(i - 1) && Bit(j) / 2 == Bit(j - 1);
    }
  }

  /** `a & a == a`. */
  lemma {:induction false} AndSelf(a: Features)
    ensures And(a, a) == a
    decreases a
  {
    if a > 0 {
      AndSelf(a / 2);
    }
  }

  /** `a & b == b & a`. */
  lemma {:induction false} AndCommutes(a: Features, b: Features)
    ensures And(a, b) == And(b, a)
    decreases a
  {
    if a > 0 && b > 0 {
      AndCommutes(a / 2, b / 2);
    }
  }

  /** Inclusion is transitive. */
  lemma {:induction false} IncludesTransitive(a: Features, b: Features, c: Features)
    requires Includes(a, b) && Includes(b, c)
    ensures Includes(a, c)
    decreases c
  {
    if c > 0 {
      assert b > 0 && a > 0;
      IncludesTransitive(a / 2, b / 2, c / 2);
    }
  }

  /** Inclusion is a partial order, and every value includes `None`. */
  lemma IncludesOrder(a: Features, b: Features)
    ensures Includes(a, a) && Includes(a, NONE)
    ensures Includes(a, b) && Includes(b, a) ==> a == b
  {
    AndSelf(a);
    AndCommutes(a, b);
  }

  /** The low `n` bits all set keep every value below `2^n` whole. */
  lemma {:induction false} AndMask(a: Features, n: nat)
    requires a < Pow2(n)
    ensures And(a, Pow2(n) - 1) == a
    decreases n
  {
    if a > 0 {
      assert (Pow2(n) - 1) / 2 == Pow2(n - 1) - 1 && (Pow2(n) - 1) % 2 == 1;
      AndMask(a / 2, n - 1);
    }
  }

  /** `All` includes every value of bits 0 to 9 only, so every named feature and both SKUs. */
  lemma AllIncludesFeatures(f: Features)
    ensures Includes(ALL, f) <==> f <= ALL
  {
    FeatureValues();
    assert Pow2(10) == 1024;
    if f <= ALL {
      AndMask(f, 10);
    }
  }

  /** Each SKU includes its product and `Text`, but not the other SKU's product. */
  lemma SkuContents()
    ensures Includes(REDIS_SKU, REDIS) && Includes(REDIS_SKU, TEXT)
    ensures Includes(ORMLITE_SKU, ORMLITE) && Includes(ORMLITE_SKU, TEXT)
    ensures !Includes(REDIS_SKU, ORMLITE) && !Includes(ORMLITE_SKU, REDIS)
  {
    FeatureValues();
  }
}
