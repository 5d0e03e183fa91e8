/**
 The rejection sampling of lib/csrand.c. The random source is a sequence of raw
 64-bit values; each sampler is described by which raw value it accepts and
 what it makes of it, and shown to be exactly uniform by counting raw values.
 */
module Csrand {
  import opened Words
  import opened Wrappers
  import opened Bits

  /** The loops over the random source: the first raw value that is accepted gives
      the result, and without one the source is used up. */
  ghost predicate FirstAccepted(f: int -> int, raws: seq<int>, result: Option<int>, used: nat) {
    && used <= |raws|
    && (forall i :: 0 <= i < used - 1 ==> f(raws[i]) == -1)
    && if result.Some? then used > 0 && f(raws[used - 1]) == result.value && result.value >= 0
       else used == |raws| && forall i :: 0 <= i < |raws| ==> f(raws[i]) == -1
  }

  // ----- csrand_uniform32 -----

  /** `-n % n` on 32 bits. */
  function Bound(n: uint32): int
    requires n > 0
  {
    (0x1_0000_0000 - n) % n
  }

  /** One turn of the loop: the value a 32-bit raw `r` is mapped to, if accepted.
      The product fits 64 bits; its low word decides, its high word is the result. */
  function Draw32(n: uint32, r: uint32): Option<int>
    requires n > 0
  {
    var mult := r * n;
    var rem := mult % 0x1_0000_0000;
    if rem < Bound(n) then None else Some(mult / 0x1_0000_0000)
  }

  lemma {:induction false} BoundIsRemainder(n: uint32)
    requires n > 0
    ensures Bound(n) == ID_SPACE % n && Bound(n) == ID_SPACE - n * (ID_SPACE / n) && 0 <= Bound(n) < n
  {
    DivMod(ID_SPACE, n);
    var q, r := ID_SPACE / n, ID_SPACE % n;
    assert n * (q - 1) == n * q - n;
    DivUnique(ID_SPACE - n, n, q - 1, r);
  }

  /** The raw values that give `k`: those with `r * n` in the last
      `n * (2^32 / n)` places of block `k`. */
  lemma {:induction false} Draw32Iff(n: uint32, r: uint32, k: int)
    requires n > 0
    ensures Draw32(n, r) == Some(k) <==> ID_SPACE * k + Bound(n) <= r * n < ID_SPACE * (k + 1)
  {
    var mult := r * n;
    DivMod(mult, ID_SPACE);
    BoundIsRemainder(n);
    if ID_SPACE * k + Bound(n) <= mult < ID_SPACE * (k + 1) {
      DivUnique(mult, ID_SPACE, k, mult - ID_SPACE * k);
    }
  }

  /** The value a raw number is mapped to, -1 when it is rejected. */
  ghost function Value32(n: uint32): int -> int
    requires n > 0
  {
    r => if 0 <= r < 0x1_0000_0000 && Draw32(n, r).Some? then Draw32(n, r).value else -1
  }

  /** Of the 2^32 raw values exactly `2^32 / n` are mapped to each `k` below `n`. */
  lemma {:induction false} Uniform32(n: uint32, k: nat)
    requires n > 0 && k < n
    ensures Count(Sends(Value32(n), k), 0, ID_SPACE) == ID_SPACE / n
  {
    BoundIsRemainder(n);
    var q := ID_SPACE / n;
    var low := ID_SPACE * k + Bound(n);
    var c := (low + n - 1) / n;
    DivMod(low + n - 1, n);
    assert low <= n * c < low + n;
    forall r: int | 0 <= r < ID_SPACE
      ensures Sends(Value32(n), k)(r) <==> c <= r < c + q
    {
      InBlock(n, k, c, q, r);
      Draw32Iff(n, r, k);
    }
    BlockEnds(n, k, c, q);
    CountInterval(Sends(Value32(n), k), 0, c, c + q, ID_SPACE);
  }

  lemma {:induction false} BlockEnds(n: uint32, k: nat, c: int, q: nat)
    requires n > 0 && k < n && q == ID_SPACE / n
    requires ID_SPACE * k + Bound(n) <= n * c < ID_SPACE * k + Bound(n) + n
    ensures 0 <= c <= c + q <= ID_SPACE
  {
    BoundIsRemainder(n);
    InBlock(n, k, c, q, c);
    InBlock(n, k, c, q, c + q - 1);
  }

  /** The multiples of `n` in block `k` are those of `c .. c + q - 1`, all below 2^32. */
  lemma {:induction false} InBlock(n: uint32, k: nat, c: int, q: nat, r: int)
    requires n > 0 && k < n && Bound(n) == ID_SPACE - n * q
    requires ID_SPACE * k + Bound(n) <= n * c < ID_SPACE * k + Bound(n) + n
    ensures ID_SPACE * k + Bound(n) <= r * n < ID_SPACE * (k + 1) <==> c <= r < c + q
    ensures c <= r < c + q ==> 0 <= r < ID_SPACE
  {
    var low := ID_SPACE * k + Bound(n);
    assert ID_SPACE * (k + 1) == low + n * q;
    assert n * (c + q) == n * c + n * q && n * (c - 1) == n * c - n && n * (c + q - 1) == n * c + n * q - n;
    if r < c {
      MulLeq(n, r, c - 1);
    } else if r < c + q {
      MulLeq(n, c, r);
      MulLeq(n, r, c + q - 1);
      assert r * n < ID_SPACE * n by {
        MulLeq(ID_SPACE, k + 1, n);
      }
      SmallFactor(n, r);
    } else {
      MulLeq(n, c + q, r);
    }
  }

  lemma {:induction false} SmallFactor(n: int, r: int)
    requires n > 0 && 0 <= r * n < ID_SPACE * n
    ensures 0 <= r < ID_SPACE
  {
    if r < 0 {
      MulLeq(n, r, -1);
    } else if r >= ID_SPACE {
      MulLeq(n, ID_SPACE, r);
    }
  }

  /** An accepted value lies below `n`. */
  lemma {:induction false} Draw32Range(n: uint32, r: uint32)
    requires n > 0 && Draw32(n, r).Some?
    ensures 0 <= Draw32(n, r).value < n
  {
    var k := Draw32(n, r).value;
    Draw32Iff(n, r, k);
    assert r * n <= (ID_SPACE - 1) * n by {
      MulLeq(n, r, ID_SPACE - 1);
    }
    if k < 0 {
      MulLeq(ID_SPACE, k + 1, 0);
      MulLeq(n, 0, r);
    } else if k >= n {
      MulLeq(ID_SPACE, n, k);
    }
  }

  lemma {:induction false} QuotientDominates(w: int, n: int)
    requires 0 < n <= w
    ensures 2 * (n * (w / n)) > w
  {
    DivMod(w, n);
    if w / n >= 1 {
      MulLeq(n, 1, w / n);
    } else {
      MulLeq(n, w / n, 0);
    }
  }

  /** Counting every value below `n`, more than half of the raw values are accepted. */
  lemma {:induction false} AcceptsMoreThanHalf(n: uint32)
    requires n > 0
    ensures 2 * Count(SendsBelow(Value32(n), n), 0, ID_SPACE) > ID_SPACE
  {
    var q := ID_SPACE / n;
    forall j: nat | j < n
      ensures Count(Sends(Value32(n), j), 0, ID_SPACE) == q
    {
      Uniform32(n, j);
    }
    CountValues(Value32(n), ID_SPACE, n, q);
    QuotientDominates(ID_SPACE, n);
  }

  /** The loop of `csrand_uniform32` over the raw values the source delivers:
      every value before the last one used is rejected. */
  method CsrandUniform32(n: uint32, raws: seq<uint32>) returns (result: Option<int>, used: nat)
    ensures n > 0 ==> FirstAccepted(Value32(n), raws, result, used)
    ensures n > 0 && result.Some? ==> 0 <= result.value < n
    ensures n == 0 ==> result == (if raws == [] then None else Some(raws[0]))
  {
    if n == 0 {
      return if raws == [] then None else Some(raws[0]), if raws == [] then 0 else 1;
    }
    var bound := (0x1_0000_0000 - n) % n;
    used := 0;
    while used < |raws|
      invariant 0 <= used <= |raws|
      invariant forall i :: 0 <= i < used ==> Value32(n)(raws[i]) == -1
    {
      var mult := raws[used] * n;
      var rem := mult % 0x1_0000_0000;
      used := used + 1;
      if !(rem < bound) {
        Draw32Range(n, raws[used - 1]);
        return Some(mult / 0x1_0000_0000), used;
      }
    }
    result := None;
  }

  // ----- csrand_uniform_slow -----

  /** `n - 1` and `bit_ceil_wrapul(n) - 1` on 64 bits. */
  function Max(n: ulong): ulong {
    (n - 1) % 0x1_0000_0000_0000_0000
  }

  function Mask(n: ulong): ulong {
    (BitCeilWrap(n) - 1) % 0x1_0000_0000_0000_0000
  }

  /** One turn of the loop on a 64-bit raw value. */
  function DrawSlow(n: ulong, raw: ulong): Option<int> {
    var r := BitAnd(raw, Mask(n));
    if r > Max(n) then None else Some(r)
  }

  /** How many values there are to choose from; 0 asks for all of them. */
  function Limit(n: ulong): int {
    if n == 0 then ULONG_SPACE else n
  }

  function MaskBits(n: ulong): nat {
    if n == 0 then 64 else BitLength(n)
  }

  /** The mask is one less than a power of two, covers the limit, and is less
      than twice as long. */
  lemma {:induction false} MaskCovers(n: ulong)
    ensures MaskBits(n) <= 64 && Mask(n) == Pow2(MaskBits(n)) - 1
    ensures Limit(n) <= Pow2(MaskBits(n)) <= 2 * Limit(n)
  {
    if n > 0 {
      var k := BitLength(n);
      BitCeilIsNextPower(n);
      Pow2UpTo64(k);
      MaskFromCeil(BitCeil(n), Pow2(k));
    } else {
      Pow2Of64();
    }
  }

  lemma {:induction false} LimitIsMax(n: ulong)
    ensures Limit(n) == Max(n) + 1
  {
  }

  lemma {:induction false} Pow2UpTo64(k: nat)
    requires k <= 64
    ensures Pow2(k) <= ULONG_SPACE
  {
    Pow2Of64();
    if k < 64 {
      Pow2Monotone(k, 64);
    }
  }

  lemma {:induction false} MaskFromCeil(c: ulong, p: nat)
    requires 1 <= p <= ULONG_SPACE && c == p % 0x1_0000_0000_0000_0000
    ensures (c - 1) % 0x1_0000_0000_0000_0000 == p - 1
  {
  }

  ghost function ValueSlow(n: ulong): int -> int {
    raw => if 0 <= raw < 0x1_0000_0000_0000_0000 && DrawSlow(n, raw).Some? then DrawSlow(n, raw).value else -1
  }

  lemma {:induction false} SlowIsResidue(n: ulong, raw: int, v: nat)
    requires 0 <= raw < ULONG_SPACE && v < Limit(n)
    ensures ValueSlow(n)(raw) == v <==> raw % Pow2(MaskBits(n)) == v
  {
    MaskCovers(n);
    LimitIsMax(n);
    AndMask(raw, MaskBits(n));
    DivMod(raw, Pow2(MaskBits(n)));
  }

  /** Each value below the limit has exactly `2^(64 - k)` of the 2^64 raw values, `k` the width of the mask. */
  lemma {:induction false} UniformSlow(n: ulong, v: nat)
    requires v < Limit(n)
    ensures MaskBits(n) <= 64
    ensures Count(Sends(ValueSlow(n), v), 0, ULONG_SPACE) == Pow2(64 - MaskBits(n))
  {
    MaskCovers(n);
    SplitWord(MaskBits(n));
    forall raw | 0 <= raw < ULONG_SPACE
      ensures ValueSlow(n)(raw) == v <==> raw % Pow2(MaskBits(n)) == v
    {
      SlowIsResidue(n, raw, v);
    }
    CountResidue(ValueSlow(n), v, Pow2(MaskBits(n)), Pow2(64 - MaskBits(n)));
  }

  lemma {:induction false} SplitWord(k: nat)
    requires k <= 64
    ensures Pow2(k) * Pow2(64 - k) == ULONG_SPACE
  {
    Pow2Of64();
    Pow2Adds(k, 64 - k);
  }

  /** At least half of the raw values are accepted. */
  lemma {:induction false} SlowAcceptsHalf(n: ulong)
    ensures 2 * Count(SendsBelow(ValueSlow(n), Limit(n)), 0, ULONG_SPACE) >= ULONG_SPACE
  {
    MaskCovers(n);
    SplitWord(MaskBits(n));
    var q := Pow2(64 - MaskBits(n));
    forall j: nat | j < Limit(n)
      ensures Count(Sends(ValueSlow(n), j), 0, ULONG_SPACE) == q
    {
      UniformSlow(n, j);
    }
    CountValues(ValueSlow(n), ULONG_SPACE, Limit(n), q);
    HalfOf(Limit(n), Pow2(MaskBits(n)), q, ULONG_SPACE);
  }

  lemma {:induction false} HalfOf(l: int, p: int, q: nat, w: int)
    requires p * q == w && p <= 2 * l
    ensures 2 * (l * q) >= w
  {
    if q > 0 {
      MulLeq(q, p, 2 * l);
    }
  }

  method CsrandUniformSlow(n: ulong, raws: seq<ulong>) returns (result: Option<int>, used: nat)
    ensures FirstAccepted(ValueSlow(n), raws, result, used)
  {
    var max := (n - 1) % 0x1_0000_0000_0000_0000;
    var mask := (BitCeilWrap(n) - 1) % 0x1_0000_0000_0000_0000;
    used := 0;
    while used < |raws|
      invariant 0 <= used <= |raws|
      invariant forall i :: 0 <= i < used ==> ValueSlow(n)(raws[i]) == -1
    {
      var r := BitAnd(raws[used], mask);
      used := used + 1;
      if !(r > max) {
        assert DrawSlow(n, raws[used - 1]) == Some(r);
        return Some(r), used;
      }
    }
    result := None;
  }

  // ----- csrand_uniform and csrand_interval -----

  /** What `csrand_uniform` makes of a 64-bit raw value; the fast sampler uses its low half. */
  ghost function Value(n: ulong): int -> int {
    if n == 0 || n > 0xFFFF_FFFF then ValueSlow(n) else (raw => Value32(n)(raw % 0x1_0000_0000))
  }

  ghost function PerValue(n: ulong): nat {
    if n == 0 || n > 0xFFFF_FFFF then Pow2(if MaskBits(n) <= 64 then 64 - MaskBits(n) else 0)
    else ID_SPACE * (ID_SPACE / n)
  }

  /** Every value below the limit is equally likely, whichever sampler is chosen. */
  lemma {:induction false} UniformAll(n: ulong, v: nat)
    requires v < Limit(n)
    ensures Count(Sends(Value(n), v), 0, ULONG_SPACE) == PerValue(n)
  {
    if n == 0 || n > 0xFFFF_FFFF {
      UniformSlow(n, v);
    } else {
      Uniform32(n, v);
      assert ID_SPACE * ID_SPACE == ULONG_SPACE;
      CountFolded(Value(n), Value32(n), v, ID_SPACE, ID_SPACE);
    }
  }

  lemma {:induction false} ValuesCoverHalf(n: ulong)
    ensures 2 * (Limit(n) * PerValue(n)) >= ULONG_SPACE
  {
    if n == 0 || n > 0xFFFF_FFFF {
      MaskCovers(n);
      SplitWord(MaskBits(n));
      HalfOf(Limit(n), Pow2(MaskBits(n)), PerValue(n), ULONG_SPACE);
    } else {
      var q := ID_SPACE / n;
      QuotientDominates(ID_SPACE, n);
      assert n * (ID_SPACE * q) == ID_SPACE * (n * q);
      MulLeq(ID_SPACE, ID_SPACE, 2 * (n * q));
      assert ID_SPACE * (2 * (n * q)) == 2 * (ID_SPACE * (n * q));
      assert ID_SPACE * ID_SPACE == ULONG_SPACE;
    }
  }

  /** Whichever sampler is chosen, at least half of the raw values give a result. */
  lemma {:induction false} AcceptsHalf(n: ulong)
    ensures 2 * Count(SendsBelow(Value(n), if n == 0 then ULONG_SPACE else n), 0, ULONG_SPACE) >= ULONG_SPACE
  {
    forall j: nat | j < Limit(n)
      ensures Count(Sends(Value(n), j), 0, ULONG_SPACE) == PerValue(n)
    {
      UniformAll(n, j);
    }
    CountValues(Value(n), ULONG_SPACE, Limit(n), PerValue(n));
    ValuesCoverHalf(n);
  }

  lemma {:induction false} Value32InRange(n: uint32, r: uint32)
    requires n > 0
    ensures Value32(n)(r) == -1 || 0 <= Value32(n)(r) < n
  {
    if Draw32(n, r).Some? {
      Draw32Range(n, r);
    }
  }

  /** A value is either rejected or below the limit. */
  lemma {:induction false} ValueInRange(n: ulong, raw: int)
    requires 0 <= raw < ULONG_SPACE
    ensures Value(n)(raw) == -1 || 0 <= Value(n)(raw) < Limit(n)
  {
    if n == 0 || n > 0xFFFF_FFFF {
      MaskCovers(n);
      LimitIsMax(n);
      AndMask(raw, MaskBits(n));
      DivMod(raw, Pow2(MaskBits(n)));
    } else {
      var r := raw % 0x1_0000_0000;
      assert Value(n)(raw) == Value32(n)(r);
      Value32InRange(n, r);
    }
  }

  function Width(min: ulong, max: ulong): ulong {
    (max - min + 1) % 0x1_0000_0000_0000_0000
  }

  lemma {:induction false} WidthLimit(min: ulong, max: ulong)
    requires min <= max
    ensures Limit(Width(min, max)) == max - min + 1
  {
  }

  /** The final addition of `csrand_interval`, modulo 2^64. */
  ghost function Offset(f: int -> int, min: ulong): int -> int {
    raw => if f(raw) == -1 then -1 else (f(raw) + min) % 0x1_0000_0000_0000_0000
  }

  ghost predicate WithinLimit(f: int -> int, limit: int, w: int) {
    forall raw :: 0 <= raw < w ==> f(raw) == -1 || 0 <= f(raw) < limit
  }

  lemma {:induction false} ValueWithinLimit(n: ulong)
    ensures WithinLimit(Value(n), Limit(n), ULONG_SPACE)
  {
    forall raw | 0 <= raw < ULONG_SPACE
      ensures Value(n)(raw) == -1 || 0 <= Value(n)(raw) < Limit(n)
    {
      ValueInRange(n, raw);
    }
  }

  lemma {:induction false} OffsetInRange(f: int -> int, min: ulong, max: ulong, raw: int, w: int)
    requires min <= max && WithinLimit(f, max - min + 1, w) && 0 <= raw < w
    ensures Offset(f, min)(raw) == (if f(raw) == -1 then -1 else f(raw) + min)
  {
  }

  lemma {:induction false} OffsetCounts(f: int -> int, min: ulong, max: ulong, t: ulong, w: int)
    requires min <= t <= max && WithinLimit(f, max - min + 1, w)
    ensures Count(Sends(Offset(f, min), t), 0, w) == Count(Sends(f, t - min), 0, w)
  {
    forall raw | 0 <= raw < w
      ensures Offset(f, min)(raw) == t <==> f(raw) == t - min
    {
      OffsetInRange(f, min, max, raw, w);
    }
    CountSends(Offset(f, min), t, f, t - min, w);
  }

  /** `csrand_interval`, all arithmetic modulo 2^64. */
  ghost function IntervalValue(min: ulong, max: ulong): int -> int {
    Offset(Value(Width(min, max)), min)
  }

  /** The result lies in `[min, max]`, even when the width wraps to 0. */
  lemma {:induction false} IntervalInRange(min: ulong, max: ulong, raw: int)
    requires min <= max && 0 <= raw < ULONG_SPACE
    ensures IntervalValue(min, max)(raw) == -1 || min <= IntervalValue(min, max)(raw) <= max
  {
    WidthLimit(min, max);
    ValueWithinLimit(Width(min, max));
    OffsetInRange(Value(Width(min, max)), min, max, raw, ULONG_SPACE);
  }

  /** Every number in `[min, max]` is equally likely. */
  lemma {:induction false} IntervalUniform(min: ulong, max: ulong, t: ulong)
    requires min <= t <= max
    ensures Count(Sends(IntervalValue(min, max), t), 0, ULONG_SPACE) == PerValue(Width(min, max))
  {
    WidthLimit(min, max);
    IntervalUniformAt(Width(min, max), min, max, t, ULONG_SPACE);
  }

  lemma {:induction false} IntervalUniformAt(n: ulong, min: ulong, max: ulong, t: ulong, w: int)
    requires min <= t <= max && Limit(n) == max - min + 1 && w == ULONG_SPACE
    ensures Count(Sends(Offset(Value(n), min), t), 0, w) == PerValue(n)
  {
    var f := Value(n);
    assert Count(Sends(f, t - min), 0, w) == PerValue(n) by {
      UniformAll(n, t - min);
    }
    assert WithinLimit(f, max - min + 1, w) by {
      ValueWithinLimit(n);
    }
    OffsetCounts(f, min, max, t, w);
  }

  ghost function SendsInto(f: int -> int, min: int, max: int): int -> bool {
    raw => min <= f(raw) <= max
  }

  /** At least half of the raw values give a number of the interval. */
  lemma {:induction false} IntervalAcceptsHalf(min: ulong, max: ulong)
    requires min <= max
    ensures 2 * Count(SendsInto(IntervalValue(min, max), min, max), 0, ULONG_SPACE) >= ULONG_SPACE
  {
    WidthLimit(min, max);
    IntervalAcceptsAt(Width(min, max), min, max, ULONG_SPACE);
  }

  lemma {:induction false} IntervalAcceptsAt(n: ulong, min: ulong, max: ulong, w: int)
    requires min <= max && Limit(n) == max - min + 1 && w == ULONG_SPACE
    ensures 2 * Count(SendsInto(Offset(Value(n), min), min, max), 0, w) >= w
  {
    var f := Value(n);
    assert 2 * Count(SendsBelow(f, max - min + 1), 0, w) >= w by {
      AcceptsHalf(n);
    }
    assert WithinLimit(f, max - min + 1, w) by {
      ValueWithinLimit(n);
    }
    IntoInterval(f, min, max, w);
  }

  lemma {:induction false} IntoInterval(f: int -> int, min: ulong, max: ulong, w: int)
    requires min <= max && WithinLimit(f, max - min + 1, w)
    ensures Count(SendsInto(Offset(f, min), min, max), 0, w) == Count(SendsBelow(f, max - min + 1), 0, w)
  {
    forall raw | 0 <= raw < w
      ensures SendsInto(Offset(f, min), min, max)(raw) == SendsBelow(f, max - min + 1)(raw)
    {
      OffsetInRange(f, min, max, raw, w);
    }
    CountSame(SendsInto(Offset(f, min), min, max), SendsBelow(f, max - min + 1), 0, w);
  }

  /** `csrand32` keeps the low word of each raw value. */
  function LowWords(raws: seq<ulong>): (r: seq<uint32>)
    ensures |r| == |raws| && forall i :: 0 <= i < |r| ==> r[i] == raws[i] % 0x1_0000_0000
  {
    seq(|raws|, i requires 0 <= i < |raws| => raws[i] % 0x1_0000_0000)
  }

  method CsrandUniform(n: ulong, raws: seq<ulong>) returns (result: Option<int>, used: nat)
    ensures FirstAccepted(Value(n), raws, result, used)
  {
    if n == 0 || n > 0xFFFF_FFFF {
      result, used := CsrandUniformSlow(n, raws);
      return;
    }
    result, used := CsrandUniform32(n, LowWords(raws));
    assert forall i :: 0 <= i < |raws| ==> Value(n)(raws[i]) == Value32(n)(LowWords(raws)[i]);
  }

  /** `csrand_interval` returns the value of the first raw number that its
      distribution accepts; it lies in the interval. */
  method CsrandInterval(min: ulong, max: ulong, raws: seq<ulong>) returns (result: Option<int>, used: nat)
    requires min <= max
    ensures FirstAccepted(IntervalValue(min, max), raws, result, used)
    ensures result.Some? ==> min <= result.value <= max
  {
    var n := (max - min + 1) % 0x1_0000_0000_0000_0000;
    var r;
    r, used := CsrandUniform(n, raws);
    result := if r.Some? then Some((r.value + min) % 0x1_0000_0000_0000_0000) else None;
    WidthLimit(min, max);
    ValueWithinLimit(n);
    if r.Some? {
      IntervalInRange(min, max, raws[used - 1]);
    }
  }
}
