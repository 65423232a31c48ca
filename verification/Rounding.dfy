/** The rounding helpers every quote is built from, and the two directions of a
    constant-product swap they implement. */
module Rounding {
  import opened MachineInts

  /** Division rounded up. */
  function CeilDiv(a: nat, b: nat): nat
    requires b > 0
  {
    (a + b - 1) / b
  }

  /** Ceiling division is the lower adjoint of multiplication. */
  lemma CeilAdjoint(k: nat, a: nat, b: nat)
    requires b > 0
    ensures CeilDiv(a, b) <= k <==> a <= k * b
  {
    FloorAdjoint(k + 1, a + b - 1, b);
    assert (k + 1) * b == k * b + b;
  }

  lemma CeilSubadditive(a: nat, b: nat, c: nat)
    requires c > 0
    ensures CeilDiv(a + b, c) <= CeilDiv(a, c) + CeilDiv(b, c)
  {
    hide CeilDiv;
    CeilAdjoint(CeilDiv(a, c), a, c);
    CeilAdjoint(CeilDiv(b, c), b, c);
    CeilAdjoint(CeilDiv(a, c) + CeilDiv(b, c), a + b, c);
    assert (CeilDiv(a, c) + CeilDiv(b, c)) * c == CeilDiv(a, c) * c + CeilDiv(b, c) * c;
  }

  /** A fee in basis points, rounded up. */
  function ComputeFee(amount: nat, feeBasisPoints: nat): nat {
    CeilDiv(amount * feeBasisPoints, 10000)
  }

  /** The most a buyer is willing to pay; the product is taken in 64 bits. */
  function SlippageBuy(amount: u64, basisPoints: u64): Option<u64> {
    if amount * basisPoints > U64_MAX || amount + (amount * basisPoints) / 10000 > U64_MAX then None
    else Some(amount + (amount * basisPoints) / 10000)
  }

  /** The least a seller is willing to take. */
  function SlippageSell(amount: u64, basisPoints: u64): Option<u64> {
    if amount <= basisPoints / 10000 then Some(1)
    else if amount * basisPoints > U64_MAX || (amount * basisPoints) / 10000 > amount then None
    else Some(amount - (amount * basisPoints) / 10000)
  }

  /** The seller's floor is meant to lie at or below the expected amount. It does except when
      the amount is zero, where the floor of one unit cannot be met. */
  lemma SellFloorIsReachable(amount: u64, basisPoints: u64)
    requires SlippageSell(amount, basisPoints).Some?
    ensures SlippageSell(amount, basisPoints).value <= amount <==> amount > 0
  {
  }

  /** Both limits lie off the amount by its slippage share rounded down: the largest `d` with
      `d * 10000 <= amount * basisPoints`. Only a sale whose share is at least the whole amount is
      given the floor of one unit instead. */
  lemma SlippageLimits(amount: u64, basisPoints: u64, d: nat)
    ensures SlippageBuy(amount, basisPoints).Some? ==>
      && amount <= SlippageBuy(amount, basisPoints).value
      && (d <= SlippageBuy(amount, basisPoints).value - amount <==> d * 10000 <= amount * basisPoints)
    ensures SlippageSell(amount, basisPoints).Some? && amount > basisPoints / 10000 ==>
      && SlippageSell(amount, basisPoints).value <= amount
      && (d <= amount - SlippageSell(amount, basisPoints).value <==> d * 10000 <= amount * basisPoints)
    ensures amount <= basisPoints / 10000 ==> SlippageSell(amount, basisPoints) == Some(1)
  {
    var share := amount * basisPoints;
    FloorAdjoint(d, share, 10000);
  }

  /** The product and the sum of a buyer's limit stay in 64 bits. */
  predicate BuyLimitFits(amount: nat, basisPoints: nat) {
    amount <= U64_MAX && amount * basisPoints <= U64_MAX && amount * basisPoints < (U64_MAX + 1 - amount) * 10000
  }

  /** The seller is given the one-unit floor, or the product stays in 64 bits and the share is at
      most the amount. */
  predicate SellLimitFits(amount: nat, basisPoints: nat) {
    || amount * 10000 <= basisPoints
    || (amount * basisPoints <= U64_MAX && amount * basisPoints < (amount + 1) * 10000)
  }

  lemma SlippageExists(amount: u64, basisPoints: u64)
    ensures SlippageBuy(amount, basisPoints).Some? <==> BuyLimitFits(amount, basisPoints)
    ensures SlippageSell(amount, basisPoints).Some? <==> SellLimitFits(amount, basisPoints)
  {
    var share := amount * basisPoints;
    FloorAdjoint(U64_MAX + 1 - amount, share, 10000);
    FloorAdjoint(amount + 1, share, 10000);
    FloorAdjoint(amount, basisPoints, 10000);
  }

  /** `fee` is the rate's share of the amount, rounded up. */
  predicate IsShareRoundedUp(fee: nat, amount: nat, basisPoints: nat) {
    amount * basisPoints <= fee * 10000 < amount * basisPoints + 10000
  }

  lemma FeeIsShareRoundedUp(fee: nat, amount: nat, basisPoints: nat)
    ensures IsShareRoundedUp(fee, amount, basisPoints) <==> fee == ComputeFee(amount, basisPoints)
  {
    hide CeilDiv;
    var due := amount * basisPoints;
    CeilAdjoint(ComputeFee(amount, basisPoints), due, 10000);
    CeilAdjoint(fee, due, 10000);
    if fee > 0 { CeilAdjoint(fee - 1, due, 10000); }
  }

  /** With at most 100% slippage and no 64-bit overflow both limits exist and bracket the amount. */
  lemma SlippageBrackets(amount: u64, basisPoints: u64)
    requires 0 < amount && basisPoints <= 10000 && amount * basisPoints <= U64_MAX && 2 * amount <= U64_MAX
    ensures SlippageBuy(amount, basisPoints).Some? && SlippageSell(amount, basisPoints).Some?
    ensures SlippageSell(amount, basisPoints).value <= amount <= SlippageBuy(amount, basisPoints).value
    ensures basisPoints < 10000 ==>
      SlippageSell(amount, basisPoints).value + SlippageBuy(amount, basisPoints).value == 2 * amount
  {
    MulMonotone(basisPoints, 10000, amount);
  }

  // ----- the constant-product swap -----

  /** Paying `dy` into the y reserve takes at most this much out of the x reserve. */
  function Out(x: nat, y: nat, dy: nat): nat
    requires y + dy > 0
  {
    (x * dy) / (y + dy)
  }

  /** Taking `dx` out of the x reserve costs at least this much paid into the y reserve. */
  function In(x: nat, y: nat, dx: nat): nat
    requires dx < x
  {
    CeilDiv(y * dx, x - dx)
  }

  /** Exchanging `dx` for `dy` does not lower the product of the reserves. */
  predicate KeepsProduct(x: nat, y: nat, dx: nat, dy: nat)
    requires dx <= x
  {
    (x - dx) * (y + dy) >= x * y
  }

  lemma OutIsLargest(x: nat, y: nat, dx: nat, dy: nat)
    requires y + dy > 0 && dx <= x
    ensures dx <= Out(x, y, dy) <==> KeepsProduct(x, y, dx, dy)
  {
    var d := y + dy;
    FloorAdjoint(dx, x * dy, d);
    assert (x - dx) * d == x * d - dx * d;
    assert x * d == x * y + x * dy;
  }

  lemma OutIsPartial(x: nat, y: nat, dy: nat)
    requires y > 0
    ensures Out(x, y, dy) <= x
    ensures x > 0 ==> Out(x, y, dy) < x
  {
    FloorAdjoint(x, x * dy, y + dy);
    FloorAdjoint(x + 1, x * dy, y + dy);
    assert x * (y + dy) == x * y + x * dy;
    assert (x + 1) * (y + dy) == x * (y + dy) + y + dy;
    assert x > 0 ==> x * y > 0;
  }

  lemma InIsLeast(x: nat, y: nat, dx: nat, dy: nat)
    requires dx < x
    ensures In(x, y, dx) <= dy <==> KeepsProduct(x, y, dx, dy)
  {
    var w := x - dx;
    CeilAdjoint(dy, y * dx, w);
    assert w * (y + dy) == w * y + dy * w;
    assert w * y == x * y - y * dx;
  }

  /** The two directions are adjoint: `dy` buys `dx` exactly when it covers the cost of `dx`. */
  lemma SwapAdjunction(x: nat, y: nat, dx: nat, dy: nat)
    requires dx < x && y + dy > 0
    ensures In(x, y, dx) <= dy <==> dx <= Out(x, y, dy)
  {
    hide In, Out;
    OutIsLargest(x, y, dx, dy);
    InIsLeast(x, y, dx, dy);
  }
}
