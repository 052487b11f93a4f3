/** Small facts about products and quotients. */
module Arithmetic {

  function Min(a: int, b: int): int { if a <= b then a else b }

  function Max(a: int, b: int): int { if a <= b then b else a }

  lemma AtLeastOne(m: nat, n: nat)
    requires n > 0
    ensures m * n >= m
  {
  }

  lemma NotNegative(a: nat, b: nat)
    ensures a * b >= 0
  {
  }

  lemma MulLe(m: nat, a: nat, b: nat)
    requires a <= b
    ensures m * a <= m * b && a * m <= b * m
  {
  }

  /** Rows of a pitch do not overlap. */
  lemma Steps(pitch: nat, low: nat, high: nat)
    requires low < high
    ensures pitch * low + pitch <= pitch * high
    ensures low * pitch + pitch <= high * pitch
  {
    assert pitch * high == pitch * low + pitch * (high - low);
    AtLeastOne(pitch, high - low);
  }

  lemma QuotientBounds(a: nat, b: nat)
    requires b > 0
    ensures b * (a / b) <= a < b * (a / b) + b
  {
  }

  lemma Divided(a: nat, m: nat)
    requires m > 0
    ensures a == m * (a / m) + a % m == a / m * m + a % m
  {
  }
}
