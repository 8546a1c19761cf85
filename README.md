# Fixed-point helpers of the governance-token repository, in Dafny

The TypeScript side of the repository carries a small integer fixed-point
library (`utils/index.ts`) used by the deployment scripts and tests: scaled
multiplication and division at wad (18-decimal), ray (27-decimal) and
percentage precision, conversion between wad and ray, a general change of
decimal precision (`convertUnits`), and `parseNetwork`, which maps a network
name to a member of the `Network` enumeration or throws.

This project models those helpers as pure Dafny functions over unbounded
non-negative integers and proves what their rounding means:

- `Rounding` defines the reference notion `IsRoundedQuotient(n, d, q)`: q is
  n / d rounded to the nearest integer with halves rounded up, stated over
  the rationals (`2·q·d ≤ 2·n + d < 2·q·d + 2·d`). It proves that the
  source's idiom `n.add(d.div(2)).div(d)` (`DivHalfUp`) satisfies it for
  every positive d, odd ones included, and that it is the only such q.
- `Constants` declares `WAD`, `HALF_WAD`, `RAY`, `HALF_RAY`, `PERCENTAGE`,
  `HALF_PERCENTAGE` and `WAD_TO_RAY` as unspecified positive integers. The
  module that defines their values is not part of this model. A property
  that needs a relation between them (`HALF == ONE / 2`, `HALF < ONE`)
  states it as a hypothesis or as one side of an equivalence.
- `Types` holds the `Network` enumeration and the key of each member. The
  value of each member equals its key.
- `Utils` holds the helpers themselves. The prototype methods `wadMul`,
  `rayMul`, `percentMul`, `wadDiv`, `rayDiv` (utils/index.ts:52-70) only
  call `wmul`, `rmul`, `pmul`, `wdiv` and `rdiv`. The model therefore has one
  function for each pair: `WMul`, `RMul`, `PMul`, `WDiv`, `RDiv`.
  The interface also declares `percentDiv` (utils/index.ts:41), but nothing
  assigns it and there is no `pdiv`, so there is no percentage division to
  model.
  Division by zero, which makes BigNumber throw, is the error
  `DivisionByZero`. An unknown network name is the error
  `UnsupportedNetwork("unsupported network <name>")`.

## Model

| member | source | states |
|---|---|---|
| `Utils.ScaledMul` | utils/index.ts:108-118 | the result q brackets the product: q·one ≤ x·y + half < (q+1)·one; when half is one/2, q is x·y/one rounded half-up |
| `Utils.WMul` | utils/index.ts:108-110 | q·WAD ≤ x·y + HALF_WAD < (q+1)·WAD; given HALF_WAD == WAD/2, q is x·y/WAD rounded half-up |
| `Utils.RMul` | utils/index.ts:112-114 | q·RAY ≤ x·y + HALF_RAY < (q+1)·RAY; given HALF_RAY == RAY/2, q is x·y/RAY rounded half-up |
| `Utils.PMul` | utils/index.ts:116-118 | q·PERCENTAGE ≤ x·y + HALF_PERCENTAGE < (q+1)·PERCENTAGE; given HALF_PERCENTAGE == PERCENTAGE/2, q is x·y/PERCENTAGE rounded half-up |
| `Utils.ScaledMulByUnit` | utils/index.ts:108-118 | multiplying x by one unit returns x if and only if the rounding amount is below one unit |
| `Utils.WMulByWad` | utils/index.ts:108-110 | wmul(x, WAD) == x if and only if HALF_WAD < WAD |
| `Utils.RMulByRay` | utils/index.ts:112-114 | rmul(x, RAY) == x if and only if HALF_RAY < RAY |
| `Utils.PMulByPercentage` | utils/index.ts:116-118 | pmul(x, PERCENTAGE) == x if and only if HALF_PERCENTAGE < PERCENTAGE |
| `Utils.MulCommutes` | utils/index.ts:108-118 | wmul, rmul and pmul do not depend on the order of their operands |
| `Utils.ScaledDiv` | utils/index.ts:120-126 | fails with DivisionByZero exactly when y == 0; otherwise the result is x·one/y rounded half-up |
| `Utils.WDiv` | utils/index.ts:120-122 | fails exactly when y == 0; otherwise the result is x·WAD/y rounded half-up |
| `Utils.RDiv` | utils/index.ts:124-126 | fails exactly when y == 0; otherwise the result is x·RAY/y rounded half-up |
| `Utils.WDivByWad` | utils/index.ts:120-122 | wdiv(x, WAD) == x |
| `Utils.RDivByRay` | utils/index.ts:124-126 | rdiv(x, RAY) == x |
| `Utils.WadToRay` | utils/index.ts:72-74 | the result is a whole multiple of WAD_TO_RAY, and that multiple is x |
| `Utils.RayToWad` | utils/index.ts:76-78 | the result is x/WAD_TO_RAY rounded half-up |
| `Utils.RayToWadOfWadToRay` | utils/index.ts:72-78 | rayToWad(wadToRay(x)) == x |
| `Utils.WadToRayOfRayToWad` | utils/index.ts:72-78 | wadToRay(rayToWad(x)) differs from x by at most WAD_TO_RAY/2, and by exactly that only upward |
| `Utils.ConvertUnits` | utils/index.ts:96-106 | equal precisions return x; raising or keeping the precision multiplies by exactly 10^(to−from); lowering it gives x/10^(from−to) rounded half-up |
| `Utils.ConvertUnitsRoundTrip` | utils/index.ts:96-106 | for from ≤ to, converting from→to and then to→from returns x |
| `Utils.ConvertUnitsDownUp` | utils/index.ts:99-105 | for from > to, converting from→to and back moves x by at most half of 10^(from−to) |
| `Utils.ConvertUnitsUpCompose` | utils/index.ts:102-105 | raising the precision through an intermediate precision equals raising it in one step |
| `Utils.ConvertUnitsMonotone` | utils/index.ts:96-106 | a change of precision preserves the order of amounts |
| `Utils.Lookup` | utils/index.ts:24 | the enumeration lookup finds a member exactly when some member has that key, and then that member's key is the name |
| `Utils.ParseNetwork` | utils/index.ts:23-32 | succeeds exactly when the name is a member's key, and then returns that member; otherwise fails with "unsupported network " followed by the name |
| `Utils.ParseNetworkOfKey` | utils/index.ts:23-32 | every member's key parses back to that member |
| `Types.Key` | types/index.ts:15-24 | every member's key, which is also its value, is a non-empty string |
| `Types.KeyInjective` | types/index.ts:15-24 | no two members share a key |
| `Rounding.DivHalfUp` | utils/index.ts:99-101 | `n.add(d.div(2)).div(d)` is n/d rounded half-up for every d > 0, odd d included |
| `Rounding.RoundedQuotientIsDivHalfUp` | utils/index.ts:99-101 | the half-up rounding of n/d is unique, so any q that is one equals `DivHalfUp(n, d)` |
| `Rounding.DivHalfUpMonotone` | utils/index.ts:99-101 | half-up division preserves order |
| `Rounding.Pow10` | utils/index.ts:100 | `BigNumber.from(10).pow(k)` is at least 1, so the ratio never divides by zero |
| `Rounding.Pow10Add` | utils/index.ts:103-104 | 10^(a+b) == 10^a · 10^b |

## Left out

- Negative amounts: BigNumber is signed and its `div` truncates toward zero, unlike Dafny's Euclidean division. Every amount here is a `nat`.
- Utils.ConvertUnits: takes integer precisions and does not model a throw of the source. The source throws when the exponent `from - to` or `to - from` passed to `pow` (utils/index.ts:100, :103) is not an integer, or when its magnitude reaches 2^53 − 1. Non-integer precisions whose difference is an integer behave like the integer case.
- The constants' values: the module that defines them is not part of this model. The relations the properties need appear as hypotheses.
- `toWadUnit`, `toRayUnit`, `toPercentUnit`, `toUnit` (utils/index.ts:80-94): thin wrappers around ethers' `formatUnits`, a foreign library.
- `enumKeys` (utils/index.ts:17-19): it depends on JavaScript's string-to-number coercion.
- `getKeyValue` (utils/index.ts:21): a one-line property accessor that nothing calls.
- Inherited object keys in `parseNetwork`: in JavaScript a name such as `constructor` finds a value on the enumeration object's prototype. The model's lookup sees only the eight members.
- The `!network` test in `parseNetwork` also rejects an empty-string value. No member has one (`Types.Key`), so the model tests only whether a member was found.
- The method aliases `wadMul` … `rayDiv` (utils/index.ts:52-70) are not separate members. Each is the same function as `wmul` … `rdiv`.
- The checkpoint, delegation and permit logic of the token is written in Solidity contracts that are not part of this model. The TypeScript tests observe that logic only through a deployed network.
- Deployment, fixtures and configuration (utils/contractDeployer.ts, utils/setupFixture.ts, utils/contractGetter.ts, deploy/00_test_env.ts, config/index.ts): network I/O and static data.
