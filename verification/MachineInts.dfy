/** The integer widths of the SDK, the outcome types its functions return, and the
    division facts the pricing proofs rest on.

    Amounts are natural numbers with an explicit 64-bit bound. A cast `as u64` keeps
    the low 64 bits (`CastU64`). A `+`, `-` or `*` that leaves the width is an
    `Overflow` outcome of the function that computes it. */
module MachineInts {

  const TWO_64: nat := 0x1_0000_0000_0000_0000
  const U64_MAX: nat := 0xFFFF_FFFF_FFFF_FFFF
  const U128_MAX: nat := 0xFFFF_FFFF_FFFF_FFFF_FFFF_FFFF_FFFF_FFFF

  type u64 = x: nat | x <= 0xFFFF_FFFF_FFFF_FFFF
  type u128 = x: nat | x <= 0xFFFF_FFFF_FFFF_FFFF_FFFF_FFFF_FFFF_FFFF

  datatype Option<+T> = None | Some(value: T)

  datatype Result<+T, +E> = Ok(value: T) | Err(error: E)

  /** The cast `x as u64`. */
  function CastU64(x: nat): u64 {
    if x <= U64_MAX then x else x % TWO_64
  }

  /** The cast keeps the low 64 bits. */
  lemma CastKeepsLowBits(x: nat)
    ensures (x - CastU64(x)) % 0x1_0000_0000_0000_0000 == 0
    ensures x < 0x1_0000_0000_0000_0000 ==> CastU64(x) == x
  {
  }

  function Min(a: nat, b: nat): nat {
    if a < b then a else b
  }

  // ----- division -----

  lemma MulMonotone(a: nat, b: nat, k: nat)
    requires a <= b
    ensures a * k <= b * k
  {
  }

  /** Floor division is the upper adjoint of multiplication. */
  lemma FloorAdjoint(k: nat, a: nat, b: nat)
    requires b > 0
    ensures k <= a / b <==> k * b <= a
  {
    var q := a / b;
    assert q * b <= a < q * b + b;
    if k <= q {
      MulMonotone(k, q, b);
    } else {
      MulMonotone(q + 1, k, b);
      assert (q + 1) * b == q * b + b;
    }
  }

  /** If `k` copies of `b` fit in `a` with less than one more copy left, `k` is the quotient. */
  lemma FloorUnique(k: nat, a: nat, b: nat)
    requires b > 0 && k * b <= a < k * b + b
    ensures a / b == k
  {
    FloorAdjoint(k, a, b);
    assert (k + 1) * b == k * b + b;
    FloorAdjoint(k + 1, a, b);
  }

  /** If one factor did not grow and the product did not shrink, the other did not shrink. */
  lemma FactorsAgainst(a: nat, b: nat, x: nat, y: nat)
    requires b <= y && b > 0 && a * b >= x * y
    ensures a >= x
    ensures a * b > x * y ==> a > x
  {
    if a <= x {
      MulMonotone(a, x, b);
      assert x * b <= x * y;
      if a < x {
        MulMonotone(a + 1, x, b);
      }
    }
  }

  // ----- remainders -----

  function Mod(n: nat, m: nat): (r: nat)
    requires m > 0
    ensures r < m
  {
    n % m
  }

  lemma ModUnique(k: nat, r: nat, n: nat, m: nat)
    requires r < m && n == k * m + r
    ensures Mod(n, m) == r && n / m == k
  {
    FloorUnique(k, n, m);
    assert n == (n / m) * m + n % m;
  }

  lemma RemainderUnique(k: nat, r: nat, n: nat, m: nat)
    requires r < m && n == k * m + r
    ensures n % m == r
  {
    ModUnique(k, r, n, m);
  }

  lemma ModParts(n: nat, m: nat)
    requires m > 0
    ensures Mod(n, m) < m && n == (n / m) * m + Mod(n, m)
    ensures n < m ==> Mod(n, m) == n
  {
    if n < m { ModUnique(0, n, n, m); }
  }

  lemma ModAddsPeriod(n: nat, m: nat)
    requires m > 0
    ensures Mod(n + m, m) == Mod(n, m)
  {
    ModParts(n, m);
    assert (n / m + 1) * m == (n / m) * m + m;
    ModUnique(n / m + 1, Mod(n, m), n + m, m);
  }

  /** A remainder modulo a multiple of `d` has the same remainder modulo `d`. */
  lemma ModOfMod(n: nat, k: nat, d: nat)
    requires d > 0 && k > 0
    ensures k * d > 0 && Mod(Mod(n, k * d), d) == Mod(n, d)
  {
    var m := k * d;
    assert m >= 1 by { MulMonotone(1, k, d); }
    ModParts(n, m);
    var q, r := n / m, Mod(n, m);
    ModParts(r, d);
    assert q * m == (q * k) * d;
    assert (q * k) * d + (r / d) * d == (q * k + r / d) * d;
    ModUnique(q * k + r / d, Mod(r, d), n, d);
  }

  /** Counts less than a period apart have the same remainder only if they are equal. */
  lemma ModSeparates(a: nat, b: nat, m: nat)
    requires a <= b < a + m
    ensures Mod(a, m) == Mod(b, m) <==> a == b
  {
    if Mod(a, m) == Mod(b, m) {
      ModParts(a, m);
      ModParts(b, m);
      assert (a / m + 1) * m == (a / m) * m + m;
      if a / m < b / m {
        MulMonotone(a / m + 1, b / m, m);
      } else {
        MulMonotone(b / m, a / m, m);
      }
    }
  }
}
