# Pixland utilities: spatial keys, levels, polling and padding

This project is a Dafny model of the computational core of `src/lib/utils.js` in the Pixland
client. It also proves properties of that model. The core has four parts, each in its own module:

- **`SpatialKey`** (`spatial_key.dfy`) covers `generateDynamicKey(x, y, maxValue)`. It packs a
  canvas cell (x, y) into one integer key. maxValue must be 2^bits - 1, and both coordinates must
  lie in [0, maxValue]. The module has three parts:
  - `DynamicKey` is the packing over exact integers: the key x * 2^bits + y that the function
    documents as unique.
  - `Decode` is the decoder beside it. The source has no decoder, but the packing implies one.
  - `DynamicKeyInt32` is the expression `(x << bits) | y` as JavaScript evaluates it, with its
    32-bit signed operators.
- **`Levels`** (`levels.dfy`) covers `LEVELS_CONFIG`, the sixteen-tier table, and two queries:
  - `getUserLevel` is modelled as a loop over the table that scans from the top tier down.
  - `getAvailableProfileImages` is modelled as a map over the table.
- **`Poller`** (`poller.dfy`) covers `callWithProgress(fn, params, maxAttempts)`. It calls `fn`
  until the job reports `"SUCCESS"` and sleeps 3000 * 2^depth ms between calls. It gives up with
  `null` once `depth >= maxAttempts`. `fn` is an oracle: `fn(params, d)` is the reply the call at
  depth d receives. A run produces its outcome and a trace of the calls and sleeps it performed.
  The source's recursion becomes a loop, `CallWithProgress`. That loop is proved equal to
  `PollFrom`, a function that mirrors the recursion, and the lemmas are about `PollFrom`.
- **`Padding`** (`padding.dfy`) covers `padWithZeros(num, length)`, which is
  `String(num).padStart(length, '0')` for an integer `num`.

`Arith` (`arith.dfy`) holds the powers of two and the division facts. `Wrappers` holds `Option`
and `Result`.

Error paths are values, not preconditions:
- `DynamicKey` returns `Failure(InvalidRangeSpec)` where the source throws for a bad maxValue,
  and `Failure(CoordinateOutOfBounds)` where it throws for an out-of-range coordinate.
- `getUserLevel` on a negative count crashes in the source; there it is `None`.
- A `fn` that throws is `Thrown`. The poller passes it on as `Failed` without retrying.

Behaviour of the code that the model keeps:
- **maxValue = 0.** maxValue = 0 is accepted, because `Math.log2(1)` is the integer 0. The only
  pair is (0, 0), with key 0.
- **No table check.** The code does not validate `LEVELS_CONFIG`. `LevelsConfigWellFormed`
  proves that the table starts at 0 and strictly increases.
- **Negative counts.** A negative count throws a TypeError, because `LEVELS_CONFIG[-1]` is
  undefined (src/lib/utils.js:183-187).
- **No cancellation.** A run cannot be cancelled; it ends only on SUCCESS, a throw, or the
  attempt limit.
- **Attempt limit.** `maxAttempts <= 0` still makes exactly one call.
- **Delays.** Sleeps come only between calls. So maxAttempts = 3 sleeps 3000 + 6000 + 12000 =
  21000 ms (`NeverDoneThreeAttempts`), and in general 3000 * (2^maxAttempts - 1) ms
  (`AllPendingGivesUp`).
- **32-bit key.** `<<` and `|` are 32-bit operators; see "## Findings".

## Model

| member | source | states |
|---|---|---|
| SpatialKey.Log2Exact | src/lib/utils.js:41-46 | `Math.log2(m)` passing `Number.isInteger` yields the n with 2^n == m; otherwise no n has 2^n == m |
| SpatialKey.Log2ExactPow2 | src/lib/utils.js:41-46 | the bit width found for maxValue + 1 = 2^n is n |
| SpatialKey.DynamicKey | src/lib/utils.js:39-56 | InvalidRangeSpec exactly when maxValue + 1 is no power of two; CoordinateOutOfBounds exactly when the range is valid and x or y is outside [0, maxValue]; success exactly when the range is valid and both coordinates are in it, with a key in [0, (maxValue+1)^2) whose quotient by maxValue + 1 is x and whose remainder is y |
| SpatialKey.Decode | src/lib/utils.js:39-56 | the inverse of the key: InvalidRangeSpec exactly for an invalid range, KeyOutOfRange exactly for a key outside [0, (maxValue+1)^2), success exactly for a valid range and a key in it, with the pair (key / (maxValue+1), key % (maxValue+1)), both in range |
| SpatialKey.DecodeEncode | src/lib/utils.js:39-56 | decode(encode(x, y)) == (x, y) for every accepted pair, which is every in-range pair under a valid maxValue |
| SpatialKey.EncodeDecode | src/lib/utils.js:39-56 | encode(decode(key)) == key for every decodable key |
| SpatialKey.DynamicKeyInjective | src/lib/utils.js:29-39 | two accepted pairs with the same key are the same pair |
| SpatialKey.DynamicKeyOnto | src/lib/utils.js:39-56 | every integer in [0, (maxValue+1)^2) is the key of exactly the pair (key / (maxValue+1), key % (maxValue+1)) |
| SpatialKey.RejectedInputs | src/lib/utils.js:43-52 | maxValue 1000 is rejected as an invalid range; (1024, 0), (-1, 0) and (5, 1024) under 1023 as out of bounds |
| SpatialKey.ToUint32 | src/lib/utils.js:55 | ECMAScript ToUint32: a result in [0, 2^32), the identity on that range |
| SpatialKey.ToInt32 | src/lib/utils.js:55 | ECMAScript ToInt32: a result in [-2^31, 2^31), the identity on [0, 2^31) |
| SpatialKey.BitOr | src/lib/utils.js:55 | the bitwise or of two naturals is at least each of them and at most their sum |
| SpatialKey.JsShiftLeft | src/lib/utils.js:55 | JavaScript `a << b`, shift count modulo 32: a signed 32-bit result (its exact value is given by JsShiftLeftExact) |
| SpatialKey.JsBitOr | src/lib/utils.js:55 | JavaScript `a \| b`: a signed 32-bit result (its exact value is given by JsBitOrExact) |
| SpatialKey.DynamicKeyInt32 | src/lib/utils.js:55 | the 32-bit expression `(x << bits) \| y` yields a signed 32-bit value |
| SpatialKey.DynamicKeyInt32Errors | src/lib/utils.js:41-52 | the 32-bit form fails on exactly the inputs the exact form fails on, with the same error |
| SpatialKey.BitOrDisjoint | src/lib/utils.js:55 | or-ing a number below 2^k into a multiple of 2^k adds the two |
| SpatialKey.JsShiftLeftExact | src/lib/utils.js:55 | `x << bits` equals x * 2^bits when the product stays below 2^31 |
| SpatialKey.JsBitOrExact | src/lib/utils.js:55 | `(x * 2^bits) \| y` equals x * 2^bits + y for y < 2^bits when the sum stays below 2^31 |
| SpatialKey.DynamicKeyInt32Exact | src/lib/utils.js:39-56 | for maxValue <= 32767 the 32-bit result equals the exact key, success or failure |
| SpatialKey.Int32KeyCollision | src/lib/utils.js:55 | under maxValue 131071 the 32-bit keys of (32768, 0) and (0, 0) are both 0, while the exact keys are 2^32 and 0 |
| SpatialKey.Int32KeyNegative | src/lib/utils.js:55 | under maxValue 65535 the 32-bit key of (32768, 0) is -2^31 |
| Levels.LevelsConfig | src/lib/utils.js:58-171 | the sixteen tiers with the source's names, thresholds, messages, quotas and images, in order; its shape is proved by LevelsConfigWellFormed |
| Levels.LevelsConfigWellFormed | src/lib/utils.js:58-171 | the table has 16 tiers, starts at 0, and its thresholds and quotas strictly increase |
| Levels.CountReachedIsPrefix | src/lib/utils.js:176-181 | in an ascending table the tiers whose threshold a count reaches are exactly a prefix |
| Levels.CurrentTier | src/lib/utils.js:173-183 | the tier of a non-negative count is the greatest tier whose threshold the count has reached |
| Levels.CurrentTierIff | src/lib/utils.js:173-183 | a count is in tier i exactly when minPixels_i <= count < minPixels_(i+1), the last band unbounded |
| Levels.InBand | src/lib/utils.js:176-181 | a count in [minPixels_i, minPixels_(i+1)) is in tier i, no higher tier having been reached |
| Levels.ReportBrackets | src/lib/utils.js:183-193 | the report's current threshold is reached and its next threshold is not; there is no next threshold exactly at the top tier |
| Levels.CurrentTierMonotone | src/lib/utils.js:173-194 | a larger count never gives a lower tier |
| Levels.PixelsLimitMonotone | src/lib/utils.js:173-194 | a larger count never gives a smaller `pixelsLimit` |
| Levels.LevelOf | src/lib/utils.js:173-194 | the top-down scan yields the report of the count's tier, and nothing exactly for a negative count |
| Levels.GetUserLevel | src/lib/utils.js:173-194 | on the source's table: nothing exactly for a negative count, otherwise the report of the tier the count is in |
| Levels.FirstTierBoundaries | src/lib/utils.js:58-86 | 0 and 499 are tier 0, 500 and 1499 tier 1, 1500 tier 2 |
| Levels.TopTierBoundaries | src/lib/utils.js:157-171 | 999999 is tier 14; 1000000 and 10000000 are "The Glitch God", which has no next threshold |
| Levels.ProfileImages | src/lib/utils.js:196-202 | one entry per tier in order, with its name and image, unlocked exactly when the count reaches its threshold |
| Levels.UnlockedIsPrefix | src/lib/utils.js:196-202 | the unlocked images are exactly tiers 0 to the current tier of `getUserLevel` |
| Levels.GetAvailableProfileImages | src/lib/utils.js:196-202 | on the source's table: sixteen images, none unlocked for a negative count, and otherwise exactly those of tiers 0 to the tier `getUserLevel` reports |
| Levels.NothingUnlockedBelowZero | src/lib/utils.js:196-202 | a negative count unlocks no image |
| Levels.UnlockedMonotone | src/lib/utils.js:196-202 | what a count unlocks stays unlocked at any larger count |
| Poller.PollFrom | src/lib/utils.js:228-242 | the recursion from a given depth: every trace starts with a call and has odd length, never runs past depth max(maxAttempts, 0), and is one call when the depth has reached the limit |
| Poller.Poll | src/lib/utils.js:228-242 | the run from depth 0: an odd-length trace starting with a call, with at most max(maxAttempts, 0) + 1 calls |
| Poller.CallWithProgress | src/lib/utils.js:228-242 | the loop yields the same outcome and trace as the recursion, with at most max(maxAttempts, 0) sleeps |
| Poller.TraceAlternates | src/lib/utils.js:228-242 | every trace alternates calls with `params` and sleeps of 3000 * 2^depth ms, and ends with a call |
| Poller.PollOutcome | src/lib/utils.js:230-241 | every call before the last got a pending reply within budget; the last reply alone decides success, give-up or failure |
| Poller.FirstSuccessWins | src/lib/utils.js:231-233 | pending replies up to depth k and SUCCESS at k give that reply's info after exactly k + 1 calls |
| Poller.ThrownStops | src/lib/utils.js:229 | a call that throws ends the run at once with that error, after exactly k + 1 calls |
| Poller.TotalDelayFrom | src/lib/utils.js:239-240 | a run from depth d whose last call is at depth l sleeps 3000 * (2^l - 2^d) ms |
| Poller.AllPendingGivesUp | src/lib/utils.js:228-242 | if no reply is ever SUCCESS the run gives up after max(maxAttempts, 0) + 1 calls and 3000 * (2^maxAttempts - 1) ms of sleep |
| Poller.ImmediateSuccess | src/lib/utils.js:231-233 | SUCCESS on the first call gives one call and no sleep |
| Poller.NeverDoneThreeAttempts | src/lib/utils.js:228-242 | an always-running job with maxAttempts 3 gets four calls, sleeps of 3000, 6000 and 12000 ms, and `null` |
| Padding.Digits | src/lib/utils.js:205 | the decimal digits of a natural number are non-empty digits without a leading zero |
| Padding.DecimalString | src/lib/utils.js:205 | `String(n)` is non-empty, and all digits exactly when n >= 0 |
| Padding.DigitsRoundTrip | src/lib/utils.js:205 | reading back the digits of n gives n |
| Padding.DecimalStringInjective | src/lib/utils.js:205 | distinct integers have distinct decimal forms |
| Padding.PadStart | src/lib/utils.js:205 | the result has length max(target, \|s\|), ends with s, has only fill characters in front, and is s itself when s is long enough |
| Padding.PadWithZeros | src/lib/utils.js:204-206 | the result is at least `length` long and at least as long as `String(num)`, exactly `length` long when it pads, ends with `String(num)` whole, and has only '0' in front |
| Padding.ZeroPaddedValue | src/lib/utils.js:205 | padding a digit string with '0' keeps it a digit string of the same value |
| Padding.PadWithZerosValue | src/lib/utils.js:204-206 | for num >= 0 the padded string is all digits and still denotes num |
| Padding.PadWithZerosShort | src/lib/utils.js:204-206 | 7 padded to 3 is "007" |
| Padding.PadWithZerosLong | src/lib/utils.js:204-206 | 2024 padded to 3 stays "2024", never cut |
| Padding.PadWithZerosNegative | src/lib/utils.js:204-206 | -5 padded to 4 is "00-5": the zeros go before the sign |

## Left out

- The other exports of `src/lib/utils.js` are not modelled: the alerts, e-mail check, dates,
  colour schema, cell size and message types. They are UI glue with no property to prove.
- `console.log` in `generateDynamicKey` is left out; it is I/O.
- The number type is not modelled. Arguments are integers, and `Math.log2` on a non-power of two
  is not computed in floating point. Only the integer/non-integer test on its result is kept, as
  `Log2Exact`. Fractional, `NaN` and infinite arguments are not modelled.
- Log2Exact: in doubles, near-powers of two from 2^49 on pass the source's range check. For
  example, `Math.log2(2^49 + 1)` rounds to exactly 49, so the source accepts maxValue = 2^49 with
  bits = 49. The model answers `InvalidRangeSpec` for that input.
- Poller: `async`/`await`, `sleep` and the timer appear only as `Sleep` events in the trace. The
  trace has no wall clock.
- Poller: `fn(...params)` is an oracle indexed by depth, because replies change over time.
- Poller: a reply without `data.info` throws a TypeError in the source. That case is not separate
  here; it is covered by the `Thrown` response.
- Poller: the optional `depth` argument is modelled as `PollFrom`'s depth, and `Poll` fixes it at
  0.
- Poller: the model has no cancellation, because the source has none.
- Poller: a missing `maxAttempts` is not modelled, because `maxAttempts` is always an integer
  here. In the source, `depth >= undefined` is always false, so such a run polls until a SUCCESS
  or a throw, with no bound on the number of calls.
- `padStart` is modelled with a one-character fill only, which is all `padWithZeros` uses.
- `String(num)` is modelled for integers in plain decimal. Exponent notation (at 1e21 and above)
  and fractions are left out.
- Concurrency between polling sessions is not modelled; each run is independent.

## Findings

| source | as written | input that shows it | evidently intended | confidence | as-written member | corrected member |
|---|---|---|---|---|---|---|
| src/lib/utils.js:55 | `(x << bits) \| y` works on signed 32-bit integers, so x * 2^bits wraps once it reaches 2^31 | maxValue = 131071: (32768, 0) and (0, 0) both get key 0; with maxValue = 65535, (32768, 0) gets -2^31 | the unique non-negative key x * 2^bits + y that the doc comment promises for every pair in range | not executed | SpatialKey.Int32KeyCollision | SpatialKey.DynamicKey |

The as-written expression is `SpatialKey.DynamicKeyInt32`. `SpatialKey.DynamicKeyInt32Exact`
proves that it is correct for maxValue <= 32767, which covers the 1023, 2047 and 4095 that the
source mentions. `SpatialKey.Int32KeyCollision` and `SpatialKey.Int32KeyNegative` exhibit where it
breaks. The rest of the model uses `SpatialKey.DynamicKey`. That member's round trips
(`DecodeEncode`, `EncodeDecode`), injectivity and onto property are proved.
