/**
 lib/bit.h on 64-bit `unsigned long`, and counting lemmas for intervals and
 residue classes.
 */
module Bits {
  import opened Words

  // ----- division by a variable -----

  lemma {:induction false} DivMod(x: int, d: int)
    requires d > 0
    ensures x == d * (x / d) + x % d && 0 <= x % d < d
  {
  }

  lemma {:induction false} MulLeq(d: int, a: int, b: int)
    requires d > 0 && a <= b
    ensures d * a <= d * b
  {
  }

  lemma {:induction false} DivUnique(x: int, d: int, q: int, r: int)
    requires d > 0 && x == d * q + r && 0 <= r < d
    ensures x / d == q && x % d == r
  {
    var a, b := x / d, x % d;
    DivMod(x, d);
    assert d * (q + 1) == d * q + d && d * (a + 1) == d * a + d;
    if q < a {
      MulLeq(d, q + 1, a);
    } else if a < q {
      MulLeq(d, a + 1, q);
    }
  }

  // ----- powers of two -----

  function Pow2(k: nat): (p: nat)
    ensures p >= 1
  {
    if k == 0 then 1 else 2 * Pow2(k - 1)
  }

  lemma {:induction false} Pow2Adds(a: nat, b: nat)
    ensures Pow2(a + b) == Pow2(a) * Pow2(b)
  {
    if a > 0 {
      Pow2Adds(a - 1, b);
      assert 2 * (Pow2(a - 1) * Pow2(b)) == (2 * Pow2(a - 1)) * Pow2(b);
    }
  }

  lemma {:induction false} Pow2Monotone(a: nat, b: nat)
    requires a < b
    ensures 2 * Pow2(a) <= Pow2(b)
  {
    if a + 1 < b {
      Pow2Monotone(a, b - 1);
    }
  }

  lemma {:induction false} Pow2Of64()
    ensures Pow2(32) == 0x1_0000_0000 && Pow2(64) == ULONG_SPACE
  {
    assert Pow2(2) == 4 && Pow2(4) == 16;
    Pow2Adds(4, 4);
    assert Pow2(8) == 256;
    Pow2Adds(8, 8);
    assert Pow2(16) == 65536;
    Pow2Adds(16, 16);
    assert Pow2(32) == 0x1_0000_0000;
    Pow2Adds(32, 32);
  }

  /** `__builtin_clzl`: the number of zero bits above the highest one bit of `x`
      in a word of `width` bits. */
  function LeadingZerosIn(x: nat, width: nat): nat
    requires 0 < x < Pow2(width)
    decreases width, x
  {
    if x >= Pow2(width - 1) then 0 else 1 + LeadingZerosIn(x, width - 1)
  }

  function LeadingZeros(x: ulong): int {
    if x == 0 then 64 else Pow2Of64(); LeadingZerosIn(x, 64)
  }

  /** `x >> k`: the lowest bit dropped `k` times. */
  function ShiftRight(x: nat, k: nat): nat {
    if k == 0 then x else ShiftRight(x / 2, k - 1)
  }

  /** `bit_ceilul`, for positive `x` as the callers guarantee. */
  function BitCeil(x: ulong): ulong
    requires x > 0
  {
    (1 + ShiftRight(0xFFFF_FFFF_FFFF_FFFF, LeadingZeros(x))) % 0x1_0000_0000_0000_0000
  }

  function BitCeilWrap(x: ulong): ulong {
    if x == 0 then 0 else BitCeil(x)
  }

  /** The bit length of `x`: the least `k` with `x < 2^k`. */
  function BitLength(x: nat): (k: nat)
    ensures x < Pow2(k) && (k > 0 ==> Pow2(k - 1) <= x)
  {
    if x == 0 then 0 else 1 + BitLength(x / 2)
  }

  lemma {:induction false} BitLengthUnique(x: nat, k: nat)
    requires x < Pow2(k) && (k > 0 ==> Pow2(k - 1) <= x)
    ensures k == BitLength(x)
  {
    var b := BitLength(x);
    if k + 1 < b {
      Pow2Monotone(k, b - 1);
    } else if b + 1 < k {
      Pow2Monotone(b, k - 1);
    }
  }

  lemma {:induction false} ClzIsBitLength(x: nat, width: nat)
    requires 0 < x < Pow2(width)
    ensures LeadingZerosIn(x, width) == width - BitLength(x)
    decreases width
  {
    if x >= Pow2(width - 1) {
      BitLengthUnique(x, width);
    } else {
      ClzIsBitLength(x, width - 1);
    }
  }

  lemma {:induction false} ShiftOnes(a: nat, b: nat)
    requires b <= a
    ensures ShiftRight(Pow2(a) - 1, b) == Pow2(a - b) - 1
  {
    if b > 0 {
      ShiftOnes(a - 1, b - 1);
    }
  }

  lemma {:induction false} BitLengthLeast(x: nat, j: nat)
    requires x < Pow2(j)
    ensures BitLength(x) <= j
  {
    var b := BitLength(x);
    if j + 1 < b {
      Pow2Monotone(j, b - 1);
    }
  }

  /** For positive `x`, `bit_ceilul(x)` is the least power of two strictly above
      `x`, reduced modulo 2^64: `BitLength` is the least exponent. */
  lemma {:induction false} BitCeilIsNextPower(x: ulong)
    requires x > 0
    ensures BitLength(x) <= 64 && BitCeil(x) == Pow2(BitLength(x)) % 0x1_0000_0000_0000_0000
  {
    var k := BitLength(x);
    Pow2Of64();
    BitLengthLeast(x, 64);
    ClzIsBitLength(x, 64);
    ShiftOnes(64, 64 - k);
  }

  // ----- bitwise and with a mask of ones -----

  function BitAnd(a: nat, b: nat): nat {
    if a == 0 || b == 0 then 0 else (a % 2) * (b % 2) + 2 * BitAnd(a / 2, b / 2)
  }

  lemma {:induction false} ModTwice(a: nat, p: nat)
    requires p > 0
    ensures a % (2 * p) == 2 * ((a / 2) % p) + a % 2
  {
    DivMod(a / 2, p);
    var q, r := (a / 2) / p, (a / 2) % p;
    assert (2 * p) * q == 2 * (p * q);
    DivUnique(a, 2 * p, q, 2 * r + a % 2);
  }

  lemma {:induction false} AndMask(a: nat, k: nat)
    ensures BitAnd(a, Pow2(k) - 1) == a % Pow2(k)
  {
    if a == 0 {
      DivUnique(0, Pow2(k), 0, 0);
    } else if k > 0 {
      AndMask(a / 2, k - 1);
      ModTwice(a, Pow2(k - 1));
    }
  }

  // ----- counting -----

  /** How many of the integers in `[lo, hi)` satisfy `p`. */
  ghost function Count(p: int -> bool, lo: int, hi: int): nat
    decreases hi - lo, p
  {
    if lo >= hi then 0 else Count(p, lo, hi - 1) + if p(hi - 1) then 1 else 0
  }

  lemma {:induction false} CountSplit(p: int -> bool, a: int, b: int, c: int)
    requires a <= b <= c
    ensures Count(p, a, c) == Count(p, a, b) + Count(p, b, c)
    decreases c - b
  {
    if b < c {
      CountSplit(p, a, b, c - 1);
    }
  }

  lemma {:induction false} CountNone(p: int -> bool, a: int, b: int)
    requires forall x :: a <= x < b ==> !p(x)
    ensures Count(p, a, b) == 0
    decreases b - a
  {
    if a < b {
      CountNone(p, a, b - 1);
    }
  }

  lemma {:induction false} CountAll(p: int -> bool, a: int, b: int)
    requires a <= b && forall x :: a <= x < b ==> p(x)
    ensures Count(p, a, b) == b - a
    decreases b - a
  {
    if a < b {
      CountAll(p, a, b - 1);
    }
  }

  /** A predicate that holds exactly on `[c, d)` inside `[a, b)`. */
  lemma {:induction false} CountInterval(p: int -> bool, a: int, c: int, d: int, b: int)
    requires a <= c <= d <= b && forall x :: a <= x < b ==> (p(x) <==> c <= x < d)
    ensures Count(p, a, b) == d - c
  {
    CountSplit(p, a, c, b);
    CountSplit(p, c, d, b);
    CountNone(p, a, c);
    CountAll(p, c, d);
    CountNone(p, d, b);
  }

  lemma {:induction false} CountSame(p: int -> bool, q: int -> bool, a: int, b: int)
    requires forall x :: a <= x < b ==> p(x) == q(x)
    ensures Count(p, a, b) == Count(q, a, b)
    decreases b - a
  {
    if a < b {
      CountSame(p, q, a, b - 1);
    }
  }

  /** `p` asked of the residue modulo `m`. */
  ghost function Folded(p: int -> bool, m: int): int -> bool
    requires m > 0
  {
    x => p(x % m)
  }

  lemma {:induction false} CountOneBlock(p: int -> bool, m: int, k: nat, j: nat)
    requires m > 0 && j <= m
    ensures Count(Folded(p, m), m * k, m * k + j) == Count(p, 0, j)
  {
    if j > 0 {
      CountOneBlock(p, m, k, j - 1);
      DivUnique(m * k + (j - 1), m, k, j - 1);
    }
  }

  /** `q` blocks of length `m` meet every residue `q` times. */
  lemma {:induction false} CountBlocks(p: int -> bool, m: int, q: nat)
    requires m > 0
    ensures Count(Folded(p, m), 0, m * q) == q * Count(p, 0, m)
  {
    if q > 0 {
      CountBlocks(p, m, q - 1);
      CountOneBlock(p, m, q - 1, m);
      assert m * q == m * (q - 1) + m;
      MulLeq(m, 0, q - 1);
      CountSplit(Folded(p, m), 0, m * (q - 1), m * q);
      assert q * Count(p, 0, m) == (q - 1) * Count(p, 0, m) + Count(p, 0, m);
    }
  }

  // ----- counting by value -----

  /** The inputs that `f` sends to `k`, to something below `k`, or to any value
      at all; -1 stands for "rejected". */
  ghost function Sends(f: int -> int, k: int): int -> bool {
    x => f(x) == k
  }

  ghost function SendsBelow(f: int -> int, k: int): int -> bool {
    x => 0 <= f(x) < k
  }

  lemma {:induction false} CountDisjoint(p: int -> bool, q: int -> bool, either: int -> bool, a: int, b: int)
    requires forall x :: a <= x < b ==> !(p(x) && q(x)) && (either(x) <==> p(x) || q(x))
    ensures Count(either, a, b) == Count(p, a, b) + Count(q, a, b)
    decreases b - a
  {
    if a < b {
      CountDisjoint(p, q, either, a, b - 1);
    }
  }

  lemma {:induction false} MulStep(k: int, q: int)
    ensures k * q == (k - 1) * q + q
  {
  }

  /** If each value below `k` is taken `q` times, some value below `k` is taken `k * q` times. */
  lemma {:induction false} CountValues(f: int -> int, w: int, k: nat, q: nat)
    requires forall j: nat :: j < k ==> Count(Sends(f, j), 0, w) == q
    ensures Count(SendsBelow(f, k), 0, w) == k * q
  {
    if k == 0 {
      CountNone(SendsBelow(f, 0), 0, w);
    } else {
      CountValues(f, w, k - 1, q);
      CountDisjoint(SendsBelow(f, k - 1), Sends(f, k - 1), SendsBelow(f, k), 0, w);
      MulStep(k, q);
    }
  }

  /** A function that is `v` exactly on one residue modulo `m`. */
  lemma {:induction false} CountResidue(f: int -> int, v: nat, m: int, q: nat)
    requires v < m && forall x :: 0 <= x < m * q ==> (f(x) == v <==> x % m == v)
    ensures Count(Sends(f, v), 0, m * q) == q
  {
    var p: int -> bool := y => y == v;
    CountSame(Sends(f, v), Folded(p, m), 0, m * q);
    CountBlocks(p, m, q);
    CountInterval(p, 0, v, v + 1, m);
  }

  /** A function of the residue only, over `q` blocks. */
  lemma {:induction false} CountFolded(f: int -> int, g: int -> int, v: int, m: int, q: nat)
    requires m > 0 && forall x :: 0 <= x < m * q ==> f(x) == g(x % m)
    ensures Count(Sends(f, v), 0, m * q) == q * Count(Sends(g, v), 0, m)
  {
    CountSame(Sends(f, v), Folded(Sends(g, v), m), 0, m * q);
    CountBlocks(Sends(g, v), m, q);
  }

  lemma {:induction false} CountSends(f: int -> int, v: int, g: int -> int, u: int, w: int)
    requires forall x :: 0 <= x < w ==> (f(x) == v <==> g(x) == u)
    ensures Count(Sends(f, v), 0, w) == Count(Sends(g, u), 0, w)
  {
    CountSame(Sends(f, v), Sends(g, u), 0, w);
  }
}
