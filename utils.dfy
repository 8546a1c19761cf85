/** The fixed-point helpers and the network-name parser of `utils/index.ts`.
    Amounts are non-negative integers of unbounded size; the scaled results
    are rounded to the nearest integer, halves rounded up. */
module Utils {
  import opened Constants
  import opened Rounding
  import opened Types

  /** What the helpers throw. */
  datatype Error =
    | UnsupportedNetwork(message: string)
    | DivisionByZero

  datatype Result<T> = Ok(value: T) | Err(error: Error)

  datatype Option<T> = None | Some(value: T)

  /** The object `parseNetwork` returns. */
  datatype ParsedNetwork = ParsedNetwork(network: Network)

  // ---------------------------------------------------------------------
  // Scaled multiplication: wmul, rmul, pmul (and wadMul, rayMul, percentMul)
  // ---------------------------------------------------------------------

  /** `x.mul(y).add(half).div(one)`: the product scaled down by `one`. When
      `half` is half of `one` this is x * y / one rounded half-up. */
  function ScaledMul(x: nat, y: nat, one: Positive, half: nat): (r: nat)
    ensures r * one <= x * y + half < (r + 1) * one
    ensures half == one / 2 ==> IsRoundedQuotient(x * y, one, r)
  {
    (x * y + half) / one
  }

  function WMul(x: nat, y: nat): (r: nat)
    ensures r * WAD <= x * y + HALF_WAD < (r + 1) * WAD
    ensures HALF_WAD == WAD / 2 ==> IsRoundedQuotient(x * y, WAD, r)
  {
    ScaledMul(x, y, WAD, HALF_WAD)
  }

  function RMul(x: nat, y: nat): (r: nat)
    ensures r * RAY <= x * y + HALF_RAY < (r + 1) * RAY
    ensures HALF_RAY == RAY / 2 ==> IsRoundedQuotient(x * y, RAY, r)
  {
    ScaledMul(x, y, RAY, HALF_RAY)
  }

  function PMul(x: nat, y: nat): (r: nat)
    ensures r * PERCENTAGE <= x * y + HALF_PERCENTAGE < (r + 1) * PERCENTAGE
    ensures HALF_PERCENTAGE == PERCENTAGE / 2 ==> IsRoundedQuotient(x * y, PERCENTAGE, r)
  {
    ScaledMul(x, y, PERCENTAGE, HALF_PERCENTAGE)
  }

  /** Multiplying by one unit gives x back exactly when the rounding
      amount is less than a unit. */
  lemma ScaledMulByUnit(x: nat, one: Positive, half: nat)
    ensures ScaledMul(x, one, one, half) == x <==> half < one
  {
    var m := x * one + half;
    if half < one {
      DivIsUnique(m, one, x);
    } else {
      assert (x + 1) * one == x * one + one;
    }
  }

  lemma WMulByWad(x: nat)
    ensures WMul(x, WAD) == x <==> HALF_WAD < WAD
  {
    ScaledMulByUnit(x, WAD, HALF_WAD);
  }

  lemma RMulByRay(x: nat)
    ensures RMul(x, RAY) == x <==> HALF_RAY < RAY
  {
    ScaledMulByUnit(x, RAY, HALF_RAY);
  }

  lemma PMulByPercentage(x: nat)
    ensures PMul(x, PERCENTAGE) == x <==> HALF_PERCENTAGE < PERCENTAGE
  {
    ScaledMulByUnit(x, PERCENTAGE, HALF_PERCENTAGE);
  }

  /** The operands of a scaled product can be swapped. */
  lemma MulCommutes(x: nat, y: nat)
    ensures WMul(x, y) == WMul(y, x)
    ensures RMul(x, y) == RMul(y, x)
    ensures PMul(x, y) == PMul(y, x)
  {
  }

  // ---------------------------------------------------------------------
  // Scaled division: wdiv, rdiv (and wadDiv, rayDiv)
  // ---------------------------------------------------------------------

  /** `x.mul(one).add(y.div(2)).div(y)`: x scaled up by `one`, divided by y
      with half-up rounding; BigNumber throws on a zero divisor. */
  function ScaledDiv(x: nat, y: nat, one: Positive): (r: Result<nat>)
    ensures r.Ok? <==> y > 0
    ensures r.Err? ==> r.error == DivisionByZero
    ensures r.Ok? ==> IsRoundedQuotient(x * one, y, r.value)
  {
    if y == 0 then Err(DivisionByZero) else Ok(DivHalfUp(x * one, y))
  }

  function WDiv(x: nat, y: nat): (r: Result<nat>)
    ensures r.Ok? <==> y > 0
    ensures r.Err? ==> r.error == DivisionByZero
    ensures r.Ok? ==> IsRoundedQuotient(x * WAD, y, r.value)
  {
    ScaledDiv(x, y, WAD)
  }

  function RDiv(x: nat, y: nat): (r: Result<nat>)
    ensures r.Ok? <==> y > 0
    ensures r.Err? ==> r.error == DivisionByZero
    ensures r.Ok? ==> IsRoundedQuotient(x * RAY, y, r.value)
  {
    ScaledDiv(x, y, RAY)
  }

  /** Dividing by one unit gives x back. */
  lemma WDivByWad(x: nat)
    ensures WDiv(x, WAD) == Ok(x)
  {
    DivHalfUpOfMultiple(x, WAD);
  }

  lemma RDivByRay(x: nat)
    ensures RDiv(x, RAY) == Ok(x)
  {
    DivHalfUpOfMultiple(x, RAY);
  }

  // ---------------------------------------------------------------------
  // WAD <-> RAY
  // ---------------------------------------------------------------------

  /** `this.mul(WAD_TO_RAY)`: exact, so the result is a whole number of wads. */
  function WadToRay(x: nat): (r: nat)
    ensures r % WAD_TO_RAY == 0 && r / WAD_TO_RAY == x
  {
    DivIsUnique(x * WAD_TO_RAY, WAD_TO_RAY, x);
    x * WAD_TO_RAY
  }

  /** `this.add(WAD_TO_RAY.div(2)).div(WAD_TO_RAY)`: x / WAD_TO_RAY rounded half-up. */
  function RayToWad(x: nat): (r: nat)
    ensures IsRoundedQuotient(x, WAD_TO_RAY, r)
  {
    DivHalfUp(x, WAD_TO_RAY)
  }

  /** Converting to ray precision and back loses nothing. */
  lemma RayToWadOfWadToRay(x: nat)
    ensures RayToWad(WadToRay(x)) == x
  {
    DivHalfUpOfMultiple(x, WAD_TO_RAY);
  }

  /** Converting to wad precision and back moves a ray amount by at most
      half a wad-unit's worth of rays. */
  lemma WadToRayOfRayToWad(x: nat)
    ensures 2 * WadToRay(RayToWad(x)) <= 2 * x + WAD_TO_RAY
    ensures 2 * x < 2 * WadToRay(RayToWad(x)) + WAD_TO_RAY
  {
  }

  // ---------------------------------------------------------------------
  // convertUnits
  // ---------------------------------------------------------------------

  /** `x.convertUnits(from, to)`: re-expresses an amount held at `from`
      decimals with `to` decimals. Scaling up is exact; scaling down rounds
      half-up. */
  function ConvertUnits(x: nat, from: int, to: int): (r: nat)
    ensures from == to ==> r == x
    ensures from <= to ==> r == x * Pow10(to - from)
    ensures from > to ==> IsRoundedQuotient(x, Pow10(from - to), r)
  {
    if from == to then
      x
    else if from > to then
      var ratio := Pow10(from - to);
      DivHalfUp(x, ratio)
    else
      var ratio := Pow10(to - from);
      x * ratio
  }

  /** Raising the precision and then lowering it back gives x again. */
  lemma ConvertUnitsRoundTrip(x: nat, from: int, to: int)
    requires from <= to
    ensures ConvertUnits(ConvertUnits(x, from, to), to, from) == x
  {
    if from < to {
      DivHalfUpOfMultiple(x, Pow10(to - from));
    }
  }

  /** Lowering the precision and then raising it back moves x by at most
      half the ratio between the two precisions. */
  lemma ConvertUnitsDownUp(x: nat, from: int, to: int)
    requires from > to
    ensures var back := ConvertUnits(ConvertUnits(x, from, to), to, from);
      2 * back <= 2 * x + Pow10(from - to) && 2 * x < 2 * back + Pow10(from - to)
  {
  }

  /** Raising the precision in two steps is the same as in one step. */
  lemma ConvertUnitsUpCompose(x: nat, from: int, mid: int, to: int)
    requires from <= mid <= to
    ensures ConvertUnits(ConvertUnits(x, from, mid), mid, to) == ConvertUnits(x, from, to)
  {
    ScalePow10Twice(x, mid - from, to - mid);
  }

  /** Changing precision preserves order. */
  lemma ConvertUnitsMonotone(x: nat, y: nat, from: int, to: int)
    requires x <= y
    ensures ConvertUnits(x, from, to) <= ConvertUnits(y, from, to)
  {
    if from > to {
      DivHalfUpMonotone(x, y, Pow10(from - to));
    } else {
      MulMonotone(x, y, Pow10(to - from));
    }
  }

  // ---------------------------------------------------------------------
  // parseNetwork
  // ---------------------------------------------------------------------

  /** `Network[key]`: the member with that key, or `undefined`. */
  function Lookup(key: string): (r: Option<Network>)
    ensures r.Some? ==> Key(r.value) == key
    ensures r.None? ==> forall n: Network :: Key(n) != key
  {
    if key == "hardhat" then Some(Hardhat)
    else if key == "localhost" then Some(Localhost)
    else if key == "kovan" then Some(Kovan)
    else if key == "mainnet" then Some(Mainnet)
    else if key == "ropsten" then Some(Ropsten)
    else if key == "tenderlyMain" then Some(TenderlyMain)
    else if key == "bsctestnet" then Some(BscTestnet)
    else if key == "bscmainnet" then Some(BscMainnet)
    else None
  }

  /** `parseNetwork(name)`: the member named `name`, or the error
      "unsupported network <name>" when there is none. */
  function ParseNetwork(name: string): (r: Result<ParsedNetwork>)
    ensures r.Ok? <==> exists n: Network :: Key(n) == name
    ensures r.Ok? ==> Key(r.value.network) == name
    ensures r.Err? ==> r.error == UnsupportedNetwork("unsupported network " + name)
  {
    match Lookup(name)
    case None => Err(UnsupportedNetwork("unsupported network " + name))
    case Some(network) => Ok(ParsedNetwork(network))
  }

  /** Every member's key parses back to that member. */
  lemma ParseNetworkOfKey(n: Network)
    ensures ParseNetwork(Key(n)) == Ok(ParsedNetwork(n))
  {
    KeyInjective(n, ParseNetwork(Key(n)).value.network);
  }
}
