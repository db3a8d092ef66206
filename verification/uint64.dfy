/** Go's `uint64` arithmetic: values in [0, 2^64), addition and subtraction
    wrap around modulo 2^64. Dafny's `%` is Euclidean, so `(a - b) % Modulus`
    is the non-negative representative that Go's unsigned subtraction yields. */
module Uint64 {

  const Modulus: int := 0x1_0000_0000_0000_0000
  const Max: int := Modulus - 1

  type U64 = x: int | 0 <= x < Modulus

  /** `a + b` on uint64 operands, with wrap-around. */
  function Add(a: U64, b: U64): (r: U64)
    ensures a + b < Modulus ==> r == a + b
    ensures a + b >= Modulus ==> r == a + b - Modulus
  {
    (a + b) % Modulus
  }

  /** `atomic.AddUint64(&x, 1)`: the successor, wrapping from Max to 0. */
  function Inc(a: U64): (r: U64)
    ensures a < Max ==> r == a + 1 && r > a
    ensures a == Max ==> r == 0
  {
    Add(a, 1)
  }

  /** `a - b` on uint64 operands: the exact difference when `b <= a`,
      otherwise the difference wrapped into range. */
  function Sub(a: U64, b: U64): (r: U64)
    ensures b <= a ==> r == a - b && r <= a
    ensures a < b ==> r == Modulus - (b - a) && r > a
  {
    (a - b) % Modulus
  }

  /** Wrapping subtraction undoes wrapping addition, and vice versa: the
      delta `Sub(a, b)` is the unique amount by which `b` must grow to reach `a`. */
  lemma SubInvertsAdd(a: U64, b: U64, k: U64)
    ensures Sub(Add(b, k), b) == k
    ensures Add(b, Sub(a, b)) == a
    ensures Add(b, k) == a <==> k == Sub(a, b)
  {
  }

  /** The difference grows by one when the minuend is incremented. */
  lemma SubInc(a: U64, b: U64)
    ensures Sub(Inc(a), b) == Inc(Sub(a, b))
  {
  }

  /** Differences chain: (a - b) + (b - c) is a - c, modulo 2^64. */
  lemma SubChain(a: U64, b: U64, c: U64)
    ensures Add(Sub(a, b), Sub(b, c)) == Sub(a, c)
  {
  }

  /** Reducing a natural number mod 2^64 commutes with incrementing it. */
  lemma IncMod(n: nat)
    ensures Inc(n % Modulus) == (n + 1) % Modulus
  {
  }

  /** Reducing a sum mod 2^64 commutes with adding a reduced operand. */
  lemma AddMod(n: nat, k: U64)
    ensures Add(n % Modulus, k) == (n + k) % Modulus
  {
  }
}
