/**
 * The bit-packed cell key of `generateDynamicKey` (src/lib/utils.js): a pair (x, y) with both
 * coordinates in [0, maxValue], where maxValue + 1 is a power of two 2^bits, becomes the single
 * integer whose high part is x and whose low `bits` bits are y.
 *
 * `DynamicKey` is the packing over unbounded integers, the key the function promises ("a unique
 * integer for the pair"). `DynamicKeyInt32` is the expression as JavaScript evaluates it, with the
 * 32-bit signed `<<` and `|`; the two agree while maxValue <= 32767 and part ways above it.
 */
module SpatialKey {
  import opened Wrappers
  import opened Arith

  datatype KeyError =
    | InvalidRangeSpec        // maxValue + 1 is not a power of two
    | CoordinateOutOfBounds   // x or y is outside [0, maxValue]
    | KeyOutOfRange           // (decoding only) the key is not the key of any pair

  /** maxValue is of the form 2^n - 1. */
  ghost predicate ValidMaxValue(maxValue: int) {
    exists n: nat :: Pow2(n) == maxValue + 1
  }

  predicate InRange(v: int, maxValue: int) {
    0 <= v <= maxValue
  }

  /**
   * `Math.log2(m)` followed by `Number.isInteger`, read over exact integers: the exponent n with
   * 2^n == m, if there is one. (For m < 1 JavaScript yields -Infinity, NaN or a negative number;
   * none of those passes the source's check, so they are all `None` here. In doubles, an m just
   * above a large power of two, such as 2^49 + 1, rounds to an integer logarithm and passes the
   * source's check; here it is `None`.)
   */
  function Log2Exact(m: int): (r: Option<nat>)
    ensures r.Some? ==> Pow2(r.value) == m
    ensures r.None? ==> forall n: nat :: Pow2(n) != m
    decreases if m < 0 then 0 else m
  {
    if m < 1 then None
    else if m == 1 then Some(0)
    else if m % 2 == 1 then None
    else match Log2Exact(m / 2)
      case None => None
      case Some(k) => Some(k + 1)
  }

  /** The exponent Log2Exact finds for a power of two is that power's exponent. */
  lemma Log2ExactPow2(n: nat)
    ensures Log2Exact(Pow2(n)) == Some(n)
  {
    Pow2Injective(Log2Exact(Pow2(n)).value, n);
  }

  /**
   * The key of (x, y) under maxValue, with the source's checks in the source's order: the range
   * specification first, then both coordinates. An out-of-range coordinate is rejected, never
   * clamped.
   */
  function DynamicKey(x: int, y: int, maxValue: int): (r: Result<int, KeyError>)
    ensures r == Failure(InvalidRangeSpec) <==> !ValidMaxValue(maxValue)
    ensures r == Failure(CoordinateOutOfBounds) <==>
              ValidMaxValue(maxValue) && !(InRange(x, maxValue) && InRange(y, maxValue))
    ensures r.Success? <==> ValidMaxValue(maxValue) && InRange(x, maxValue) && InRange(y, maxValue)
    ensures r.Success? ==>
              && 0 <= r.value < (maxValue + 1) * (maxValue + 1)
              && r.value / (maxValue + 1) == x
              && r.value % (maxValue + 1) == y
  {
    match Log2Exact(maxValue + 1)
    case None => Failure(InvalidRangeSpec)
    case Some(bits) =>
      if x < 0 || x > maxValue || y < 0 || y > maxValue then
        Failure(CoordinateOutOfBounds)
      else
        var key := x * Pow2(bits) + y;
        TwoDigitBound(x, y, Pow2(bits));
        DivModUnique(key, Pow2(bits), x, y);
        Success(key)
  }

  /**
   * The companion decoder: the high part (key shifted right by `bits`) and the low `bits` bits
   * (key masked by maxValue). Keys that no pair encodes to are rejected.
   */
  function Decode(key: int, maxValue: int): (r: Result<(int, int), KeyError>)
    ensures r == Failure(InvalidRangeSpec) <==> !ValidMaxValue(maxValue)
    ensures r == Failure(KeyOutOfRange) <==>
              ValidMaxValue(maxValue) && !(0 <= key < (maxValue + 1) * (maxValue + 1))
    ensures r.Success? <==> ValidMaxValue(maxValue) && 0 <= key < (maxValue + 1) * (maxValue + 1)
    ensures r.Success? ==> r.value == (key / (maxValue + 1), key % (maxValue + 1))
    ensures r.Success? ==> InRange(r.value.0, maxValue) && InRange(r.value.1, maxValue)
  {
    match Log2Exact(maxValue + 1)
    case None => Failure(InvalidRangeSpec)
    case Some(bits) =>
      var p := Pow2(bits);
      if key < 0 || key >= p * p then
        Failure(KeyOutOfRange)
      else
        QuotientBelow(key, p);
        Success((key / p, key % p))
  }

  /** Decoding inverts encoding: every valid pair comes back unchanged. */
  lemma DecodeEncode(x: int, y: int, maxValue: int)
    requires DynamicKey(x, y, maxValue).Success?
    ensures Decode(DynamicKey(x, y, maxValue).value, maxValue) == Success((x, y))
  {
  }

  /** Encoding inverts decoding: every decodable key is the key of its decoded pair. */
  lemma EncodeDecode(key: int, maxValue: int)
    requires Decode(key, maxValue).Success?
    ensures DynamicKey(Decode(key, maxValue).value.0, Decode(key, maxValue).value.1, maxValue)
              == Success(key)
  {
    var p := Pow2(Log2Exact(maxValue + 1).value);
    QuotientBelow(key, p);
  }

  /** Distinct pairs never share a key. */
  lemma DynamicKeyInjective(x1: int, y1: int, x2: int, y2: int, maxValue: int)
    requires DynamicKey(x1, y1, maxValue).Success? && DynamicKey(x2, y2, maxValue).Success?
    requires DynamicKey(x1, y1, maxValue) == DynamicKey(x2, y2, maxValue)
    ensures x1 == x2 && y1 == y2
  {
  }

  /**
   * The keys of a valid range are exactly [0, (maxValue + 1)^2): each of them is the key of
   * exactly one pair in range.
   */
  lemma DynamicKeyOnto(key: int, maxValue: int)
    requires ValidMaxValue(maxValue) && 0 <= key < (maxValue + 1) * (maxValue + 1)
    ensures InRange(key / (maxValue + 1), maxValue) && InRange(key % (maxValue + 1), maxValue)
    ensures DynamicKey(key / (maxValue + 1), key % (maxValue + 1), maxValue) == Success(key)
  {
    assert Decode(key, maxValue).Success?;
    EncodeDecode(key, maxValue);
  }

  /** Rejected inputs: 1000 is not of the form 2^n - 1, and 1024 and -1 lie outside [0, 1023]. */
  lemma RejectedInputs()
    ensures DynamicKey(0, 0, 1000) == Failure(InvalidRangeSpec)
    ensures DynamicKey(1024, 0, 1023) == Failure(CoordinateOutOfBounds)
    ensures DynamicKey(-1, 0, 1023) == Failure(CoordinateOutOfBounds)
    ensures DynamicKey(5, 1024, 1023) == Failure(CoordinateOutOfBounds)
  {
    Pow2Constants();
  }

  // ---------------------------------------------------------------------------------------------
  // The key as JavaScript computes `(x << bits) | y`: both operators work on 32-bit two's
  // complement integers, and the shift count is taken modulo 32.

  const TwoTo32: int := 0x1_0000_0000
  const TwoTo31: int := 0x8000_0000

  /** ECMAScript ToUint32 on an integer value. */
  function ToUint32(v: int): (r: int)
    ensures 0 <= r < TwoTo32
    ensures 0 <= v < TwoTo32 ==> r == v
  {
    v % TwoTo32
  }

  /** ECMAScript ToInt32 on an integer value. */
  function ToInt32(v: int): (r: int)
    ensures -TwoTo31 <= r < TwoTo31
    ensures 0 <= v < TwoTo31 ==> r == v
  {
    var u := ToUint32(v);
    if u >= TwoTo31 then u - TwoTo32 else u
  }

  /** Bitwise or of two naturals, one bit at a time from the lowest. */
  function BitOr(a: nat, b: nat): (r: nat)
    ensures a <= r && b <= r && r <= a + b
    decreases a + b
  {
    if a == 0 then b
    else if b == 0 then a
    else 2 * BitOr(a / 2, b / 2) + (if a % 2 == 1 || b % 2 == 1 then 1 else 0)
  }

  /** The JavaScript `a << b`. */
  function JsShiftLeft(a: int, b: int): (r: int)
    ensures -TwoTo31 <= r < TwoTo31
  {
    ToInt32(ToUint32(a) * Pow2(ToUint32(b) % 32))
  }

  /** The JavaScript `a | b`. */
  function JsBitOr(a: int, b: int): (r: int)
    ensures -TwoTo31 <= r < TwoTo31
  {
    ToInt32(BitOr(ToUint32(a), ToUint32(b)))
  }

  /** `generateDynamicKey` exactly as written, 32-bit operators included. */
  function DynamicKeyInt32(x: int, y: int, maxValue: int): (r: Result<int, KeyError>)
    ensures r.Success? ==> -TwoTo31 <= r.value < TwoTo31
  {
    match Log2Exact(maxValue + 1)
    case None => Failure(InvalidRangeSpec)
    case Some(bits) =>
      if x < 0 || x > maxValue || y < 0 || y > maxValue then
        Failure(CoordinateOutOfBounds)
      else
        Success(JsBitOr(JsShiftLeft(x, bits), y))
  }

  /** The 32-bit and exact keys reject the same inputs with the same error. */
  lemma DynamicKeyInt32Errors(x: int, y: int, maxValue: int)
    ensures DynamicKeyInt32(x, y, maxValue).Failure? <==> DynamicKey(x, y, maxValue).Failure?
    ensures DynamicKeyInt32(x, y, maxValue).Failure? ==>
              DynamicKeyInt32(x, y, maxValue) == DynamicKey(x, y, maxValue)
  {
  }

  /** Once the range is known valid, the 32-bit key is the 32-bit expression. */
  lemma DynamicKeyInt32Unfold(x: int, y: int, maxValue: int, bits: nat)
    requires Pow2(bits) == maxValue + 1 && InRange(x, maxValue) && InRange(y, maxValue)
    ensures DynamicKeyInt32(x, y, maxValue) == Success(JsBitOr(JsShiftLeft(x, bits), y))
    ensures DynamicKey(x, y, maxValue) == Success(x * Pow2(bits) + y)
  {
    Log2ExactPow2(bits);
  }

  /** Or-ing a number below 2^k into a multiple of 2^k adds it. */
  lemma {:induction false} BitOrDisjoint(a: nat, b: nat, k: nat)
    requires b < Pow2(k)
    ensures BitOr(a * Pow2(k), b) == a * Pow2(k) + b
  {
    var n := a * Pow2(k);
    if k == 0 {
      assert b == 0;
    } else if n != 0 && b != 0 {
      var p := Pow2(k - 1);
      var h := a * p;
      assert n == 2 * h by {
        assert Pow2(k) == 2 * p;
      }
      assert b / 2 < p;
      BitOrDisjoint(a, b / 2, k - 1);
      assert BitOr(2 * h, b) == 2 * BitOr(h, b / 2) + b % 2 by {
        assert (2 * h) / 2 == h && (2 * h) % 2 == 0;
      }
    }
  }

  /** A left shift that stays below 2^31 multiplies by a power of two. */
  lemma JsShiftLeftExact(x: int, bits: nat)
    requires bits < 32 && 0 <= x && x * Pow2(bits) < TwoTo31
    ensures JsShiftLeft(x, bits) == x * Pow2(bits)
  {
    var p := Pow2(bits);
    assert x <= x * p by {
      if x > 0 { MulAtLeast(p, x); }
    }
    var u, c := ToUint32(x), ToUint32(bits) % 32;
    assert u == x;
    assert c == bits;
    assert JsShiftLeft(x, bits) == ToInt32(u * Pow2(c));
  }

  /** An or of disjoint bit ranges that stays below 2^31 adds. */
  lemma JsBitOrExact(x: int, y: int, bits: nat)
    requires 0 <= x && 0 <= y < Pow2(bits) && x * Pow2(bits) + y < TwoTo31
    ensures JsBitOr(x * Pow2(bits), y) == x * Pow2(bits) + y
  {
    var shifted, low := ToUint32(x * Pow2(bits)), ToUint32(y);
    assert shifted == x * Pow2(bits) && low == y;
    BitOrDisjoint(x, y, bits);
  }

  /** A shift by at most 15 bits of a number below 2^15, or-ed with a smaller number, is exact. */
  lemma SmallShiftExact(x: int, y: int, bits: nat)
    requires bits <= 15 && 0 <= x < Pow2(bits) && 0 <= y < Pow2(bits)
    ensures JsBitOr(JsShiftLeft(x, bits), y) == x * Pow2(bits) + y
  {
    var p := Pow2(bits);
    assert p <= 32768 by {
      Pow2Constants();
      if bits < 15 { Pow2StrictlyIncreasing(bits, 15); }
    }
    assert 0 <= x * p + y < TwoTo31 by {
      TwoDigitBound(x, y, p);
      MulBothBelow(p, 32768);
    }
    JsShiftLeftExact(x, bits);
    JsBitOrExact(x, y, bits);
  }

  lemma MulBothBelow(a: nat, b: nat)
    requires a <= b
    ensures a * a <= b * b
  {
    assert a * a <= a * b;
  }

  /**
   * While 2 * bits <= 30 (maxValue <= 32767) the 32-bit expression never wraps and gives the
   * exact key.
   */
  lemma DynamicKeyInt32Exact(x: int, y: int, maxValue: int)
    requires maxValue <= 32767
    ensures DynamicKeyInt32(x, y, maxValue) == DynamicKey(x, y, maxValue)
  {
    var lg := Log2Exact(maxValue + 1);
    if lg.Some? && InRange(x, maxValue) && InRange(y, maxValue) {
      SmallRangeExact(x, y, maxValue, lg.value);
    } else {
      DynamicKeyInt32Errors(x, y, maxValue);
    }
  }

  lemma SmallRangeExact(x: int, y: int, maxValue: int, bits: nat)
    requires Pow2(bits) == maxValue + 1 && maxValue <= 32767
    requires InRange(x, maxValue) && InRange(y, maxValue)
    ensures DynamicKeyInt32(x, y, maxValue) == DynamicKey(x, y, maxValue)
  {
    assert bits <= 15 by {
      Pow2Constants();
      if bits > 15 {
        Pow2StrictlyIncreasing(15, bits);
      }
    }
    DynamicKeyInt32Unfold(x, y, maxValue, bits);
    SmallShiftExact(x, y, bits);
  }

  lemma ShiftWrapsAt17()
    ensures JsBitOr(JsShiftLeft(32768, 17), 0) == 0
    ensures JsBitOr(JsShiftLeft(0, 17), 0) == 0
  {
    Pow2Constants();
    assert ToUint32(32768) == 32768 && ToUint32(0) == 0 && ToUint32(17) % 32 == 17;
    assert 32768 * Pow2(17) == TwoTo32;
    assert ToInt32(TwoTo32) == 0 && ToInt32(0) == 0;
    assert JsShiftLeft(32768, 17) == 0;
    assert JsShiftLeft(0, 17) == 0;
    assert BitOr(0, 0) == 0;
  }

  lemma ShiftSignAt16()
    ensures JsBitOr(JsShiftLeft(32768, 16), 0) == -TwoTo31
  {
    Pow2Constants();
    assert ToUint32(32768) == 32768 && ToUint32(16) % 32 == 16;
    assert 32768 * Pow2(16) == TwoTo31;
    assert ToInt32(TwoTo31) == -TwoTo31;
    assert JsShiftLeft(32768, 16) == -TwoTo31;
    assert ToUint32(-TwoTo31) == TwoTo31 && ToUint32(0) == 0;
    assert BitOr(TwoTo31, 0) == TwoTo31;
  }

  /**
   * Above that bound the 32-bit expression collides: for maxValue = 131071 (17 bits) the pairs
   * (32768, 0) and (0, 0) get the same key 0, while the exact keys differ.
   */
  lemma Int32KeyCollision()
    ensures DynamicKeyInt32(32768, 0, 131071) == Success(0)
    ensures DynamicKeyInt32(0, 0, 131071) == Success(0)
    ensures DynamicKey(32768, 0, 131071) == Success(TwoTo32)
    ensures DynamicKey(0, 0, 131071) == Success(0)
  {
    Pow2Constants();
    ShiftWrapsAt17();
    assert DynamicKeyInt32(32768, 0, 131071) == Success(0) by {
      DynamicKeyInt32Unfold(32768, 0, 131071, 17);
    }
    assert DynamicKeyInt32(0, 0, 131071) == Success(0) by {
      DynamicKeyInt32Unfold(0, 0, 131071, 17);
    }
    assert DynamicKey(32768, 0, 131071) == Success(TwoTo32) by {
      DynamicKeyInt32Unfold(32768, 0, 131071, 17);
    }
    DynamicKeyInt32Unfold(0, 0, 131071, 17);
  }

  /** For maxValue = 65535 (16 bits) the 32-bit key of (32768, 0) is already negative. */
  lemma Int32KeyNegative()
    ensures DynamicKeyInt32(32768, 0, 65535) == Success(-TwoTo31)
  {
    Pow2Constants();
    DynamicKeyInt32Unfold(32768, 0, 65535, 16);
    ShiftSignAt16();
  }
}
