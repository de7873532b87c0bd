/**
 * Alignment arithmetic of hmalloc.h: the ALIGN macro, the aligned header
 * size AL_HDR_SZ and the minimum block size MIN_BLOCK_SZ.
 *
 * `size_t` is taken to be 64 bits wide. ALIGN is written as the source
 * writes it: the addition wraps modulo 2^64 and the rounding is a bitwise
 * AND with the complement of `A - 1`, where `A` stands for
 * `alignof(max_align_t)` and is a power of two given by its exponent.
 */
module Align {

  /** Number of bits of `size_t`. */
  const SizeWidth: nat := 64

  function Pow2(n: nat): (r: nat)
    ensures r >= 1
  {
    if n == 0 then 1 else 2 * Pow2(n - 1)
  }

  /** 2^64: every `size_t` value is below it. */
  const SizeLimit: nat := Pow2(SizeWidth)

  /** Bitwise AND of two naturals, one bit at a time from the least significant. */
  function BitAnd(x: nat, y: nat): nat
  {
    if x == 0 || y == 0 then 0
    else 2 * BitAnd(x / 2, y / 2) + (if x % 2 == 1 && y % 2 == 1 then 1 else 0)
  }

  /** `~x` on a `size_t`. */
  function Complement(x: nat): nat
    requires x < SizeLimit
  {
    SizeLimit - 1 - x
  }

  /** ALIGN(size) with `alignof(max_align_t) == Pow2(k)`, wrap-around included. */
  function AlignTo(size: nat, k: nat): nat
    requires size < SizeLimit && k < SizeWidth
  {
    Pow2Below(k, SizeWidth);
    BitAnd((size + Pow2(k) - 1) % SizeLimit, Complement(Pow2(k) - 1))
  }

  /**
   * The platform values the header takes as given: `alignLog` is the base-2
   * logarithm of `alignof(max_align_t)` and `headerSize` is `sizeof(mbheader)`.
   */
  datatype Config = Config(alignLog: nat, headerSize: nat) {

    ghost predicate Valid()
    {
      alignLog < SizeWidth && 1 <= headerSize && headerSize + Pow2(alignLog) - 1 < SizeLimit
    }

    /** `alignof(max_align_t)`. */
    function A(): nat
    {
      Pow2(alignLog)
    }

    /** ALIGN(size). */
    function Align(size: nat): nat
      requires Valid() && size < SizeLimit
    {
      AlignTo(size, alignLog)
    }

    /** AL_HDR_SZ == ALIGN(sizeof(mbheader)). */
    function H(): nat
      requires Valid()
    {
      Align(headerSize)
    }

    /** MIN_BLOCK_SZ == AL_HDR_SZ + ALIGN(sizeof(char)). */
    function MinBlock(): nat
      requires Valid()
    {
      Pow2Below(alignLog, SizeWidth);
      H() + Align(1)
    }

    /** The three sizes the block list is laid out with. */
    function Sizes(): Geometry
      requires Valid()
    {
      Geometry(A(), H(), MinBlock())
    }
  }

  /**
   * The sizes the block list uses: the alignment unit A, the aligned
   * header size AL_HDR_SZ and the minimum block size MIN_BLOCK_SZ.
   */
  datatype Geometry = Geometry(unit: nat, hdr: nat, minBlock: nat) {
    ghost predicate Valid()
    {
      unit >= 1 && hdr >= unit && hdr % unit == 0 && minBlock == hdr + unit
    }
  }

  /** The sizes hmalloc.h defines satisfy what the block list relies on. */
  lemma GeometryValid(c: Config)
    requires c.Valid()
    ensures c.Sizes().Valid()
  {
    HeaderSizeAligned(c);
    MinBlockIsHeaderPlusUnit(c);
  }

  lemma {:induction false} Pow2Below(k: nat, n: nat)
    requires k < n
    ensures Pow2(k) < Pow2(n)
  {
    if k < n - 1 {
      Pow2Below(k, n - 1);
    }
  }

  lemma MulAtLeast(d: int, a: int)
    requires d > 0 && a >= 1
    ensures d * a >= d
  {
  }

  lemma MulSign(d: int, a: int)
    requires d > 0 && d * a > 0
    ensures a >= 1
  {
    if a < 1 {
      MulAtLeast(d, 1 - a);
    }
  }

  /** Euclidean division is determined by its quotient and remainder bounds. */
  lemma DivModUnique(y: int, d: int, q: int, r: int)
    requires d > 0 && 0 <= r < d && y == d * q + r
    ensures y / d == q && y % d == r
  {
    var q', r' := y / d, y % d;
    assert y == d * q' + r';
    assert d * q - d * q' == r' - r;
    assert d * (q - q') == r' - r;
    if q > q' {
      MulAtLeast(d, q - q');
    } else if q < q' {
      MulAtLeast(d, q' - q);
    }
  }

  /** The remainder modulo 2p, from the remainder of y / 2 modulo p. */
  lemma ModDouble(y: nat, p: nat)
    requires p >= 1
    ensures y % (2 * p) == 2 * ((y / 2) % p) + y % 2
  {
    var h := y / 2;
    var q, r := h / p, h % p;
    assert h == p * q + r;
    assert y == 2 * h + y % 2;
    assert 2 * (p * q) == (2 * p) * q;
    assert y == (2 * p) * q + (2 * r + y % 2);
    DivModUnique(y, 2 * p, q, 2 * r + y % 2);
  }

  /** AND with a mask of n one-bits keeps every n-bit number. */
  lemma {:induction false} BitAndAllOnes(y: nat, n: nat)
    requires y < Pow2(n)
    ensures BitAnd(y, Pow2(n) - 1) == y
  {
    if n > 0 && y > 0 {
      var m := Pow2(n) - 1;
      assert m == 2 * (Pow2(n - 1) - 1) + 1;
      assert m / 2 == Pow2(n - 1) - 1 && m % 2 == 1;
      assert y / 2 < Pow2(n - 1);
      BitAndAllOnes(y / 2, n - 1);
    }
  }

  /** Halving both operands: an even mask contributes no low bit. */
  lemma BitAndEvenMask(y: nat, m: nat)
    requires y > 0 && m > 0 && m % 2 == 0
    ensures BitAnd(y, m) == 2 * BitAnd(y / 2, m / 2)
  {
  }

  /**
   * AND with the n-bit complement of `2^k - 1` clears the k low bits:
   * it rounds y down to a multiple of 2^k.
   */
  lemma {:induction false} BitAndClearsLowBits(y: nat, n: nat, k: nat)
    requires k <= n && y < Pow2(n) && Pow2(k) <= Pow2(n)
    ensures BitAnd(y, Pow2(n) - Pow2(k)) == y - y % Pow2(k)
  {
    if k == 0 {
      BitAndAllOnes(y, n);
      DivModUnique(y, 1, y, 0);
    } else if k == n {
      DivModUnique(y, Pow2(k), 0, y);
      assert BitAnd(y, 0) == 0;
    } else if y == 0 {
      DivModUnique(0, Pow2(k), 0, 0);
    } else {
      Pow2Below(k - 1, n - 1);
      BitAndClearsLowBits(y / 2, n - 1, k - 1);
      BitAndClearsStep(y, n, k);
    }
  }

  /** The inductive step of BitAndClearsLowBits: one low bit more on each side. */
  lemma BitAndClearsStep(y: nat, n: nat, k: nat)
    requires 0 < k < n && 0 < y < Pow2(n) && Pow2(k - 1) < Pow2(n - 1)
    requires BitAnd(y / 2, Pow2(n - 1) - Pow2(k - 1)) == y / 2 - (y / 2) % Pow2(k - 1)
    ensures BitAnd(y, Pow2(n) - Pow2(k)) == y - y % Pow2(k)
  {
    var p, pn := Pow2(k - 1), Pow2(n - 1);
    assert Pow2(n) == 2 * pn && Pow2(k) == 2 * p;
    var m := Pow2(n) - Pow2(k);
    DivModUnique(m, 2, pn - p, 0);
    BitAndEvenMask(y, m);
    RoundDownDouble(y, p);
  }

  /** Rounding y down to a multiple of 2p doubles the rounding of y / 2 to a multiple of p. */
  lemma RoundDownDouble(y: nat, p: nat)
    requires p >= 1
    ensures y - y % (2 * p) == 2 * (y / 2 - (y / 2) % p)
  {
    ModDouble(y, p);
  }

  /** ALIGN, written with `& ~(A - 1)`, rounds the wrapped sum down to a multiple of A. */
  lemma AlignToRoundsDown(size: nat, k: nat)
    requires size < SizeLimit && k < SizeWidth
    ensures var y := (size + Pow2(k) - 1) % SizeLimit;
            AlignTo(size, k) == y - y % Pow2(k)
  {
    var y := (size + Pow2(k) - 1) % SizeLimit;
    var mask := SizeLimit - Pow2(k);
    assert Pow2(k) < SizeLimit by {
      Pow2Below(k, SizeWidth);
    }
    assert AlignTo(size, k) == BitAnd(y, mask);
    assert y < SizeLimit by {
      ModBelow(size + Pow2(k) - 1, SizeLimit);
    }
    BitAndClearsLowBits(y, SizeWidth, k);
  }

  lemma ModBelow(x: nat, d: nat)
    requires d >= 1
    ensures x % d < d
  {
  }

  /** A value below a rounds down to 0. */
  lemma RoundDownSmall(y: nat, a: nat)
    requires y < a
    ensures y - y % a == 0
  {
    DivModUnique(y, a, 0, y);
  }

  /** A value in [d, 2d) wraps once modulo d. */
  lemma WrapOnce(x: nat, d: nat)
    requires d <= x < 2 * d
    ensures x % d == x - d
  {
    DivModUnique(x, d, 1, x - d);
  }

  /** Rounding down to a multiple of a gives a multiple of a. */
  lemma RoundDownIsMultiple(y: nat, a: nat)
    requires a >= 1
    ensures (y - y % a) % a == 0
  {
    var q := y / a;
    assert y == a * q + y % a;
    DivModUnique(y - y % a, a, q, 0);
  }

  /** ALIGN(x) is a multiple of A. */
  lemma AlignIsMultiple(c: Config, size: nat)
    requires c.Valid() && size < SizeLimit
    ensures c.Align(size) % c.A() == 0
  {
    AlignToRoundsDown(size, c.alignLog);
    RoundDownIsMultiple((size + c.A() - 1) % SizeLimit, c.A());
  }

  /** Without wrap-around, ALIGN(x) is the least multiple of A that is at least x. */
  lemma AlignRoundsUp(c: Config, size: nat)
    requires c.Valid() && size + c.A() - 1 < SizeLimit
    ensures c.Align(size) % c.A() == 0
    ensures size <= c.Align(size) < size + c.A()
  {
    AlignIsMultiple(c, size);
    AlignToRoundsDown(size, c.alignLog);
    var y := size + c.A() - 1;
    DivModUnique(y, SizeLimit, 0, y);
    assert c.Align(size) == y - y % c.A();
  }

  /** Powers of two up to 2^n divide 2^n. */
  lemma {:induction false} Pow2Divides(k: nat, n: nat)
    requires k <= n
    ensures Pow2(n) % Pow2(k) == 0
  {
    if k < n {
      Pow2Divides(k, n - 1);
      var q := Pow2(n - 1) / Pow2(k);
      assert Pow2(n - 1) == Pow2(k) * q;
      assert Pow2(n) == Pow2(k) * (2 * q);
      DivModUnique(Pow2(n), Pow2(k), 2 * q, 0);
    } else {
      DivModUnique(Pow2(n), Pow2(k), 1, 0);
    }
  }

  /** Two multiples of a, one below the other, are at least a apart. */
  lemma MultipleGap(x: nat, z: nat, a: nat)
    requires a >= 1 && x % a == 0 && z % a == 0 && x < z
    ensures x + a <= z
  {
    var qx, qz := x / a, z / a;
    assert x == a * qx;
    assert z == a * qz;
    assert z - x == a * (qz - qx);
    MulSign(a, qz - qx);
    MulAtLeast(a, qz - qx);
  }

  /** ALIGN(ALIGN(x)) == ALIGN(x) when ALIGN(x) does not wrap. */
  lemma AlignIdempotent(c: Config, size: nat)
    requires c.Valid() && size + c.A() - 1 < SizeLimit
    ensures c.Align(size) + c.A() - 1 < SizeLimit
    ensures c.Align(c.Align(size)) == c.Align(size)
  {
    var x := c.Align(size);
    AlignRoundsUp(c, size);
    if x + c.A() - 1 >= SizeLimit {
      // SizeLimit is itself a multiple of A, so it cannot sit strictly between x and x + A.
      Pow2Divides(c.alignLog, SizeWidth);
      Pow2Below(c.alignLog, SizeWidth);
      assert x < SizeLimit;
      MultipleGap(x, SizeLimit, c.A());
      assert false;
    }
    AlignRoundsUp(c, x);
    var z := c.Align(x);
    if z != x {
      assert x < z;
      MultipleGap(x, z, c.A());
      assert false;
    }
  }

  /** ALIGN(0) == 0: a zero-byte request keeps a zero-byte payload. */
  lemma AlignZero(c: Config)
    requires c.Valid()
    ensures c.Align(0) == 0
  {
    Pow2Below(c.alignLog, SizeWidth);
    AlignToRoundsDown(0, c.alignLog);
    DivModUnique(c.A() - 1, SizeLimit, 0, c.A() - 1);
    DivModUnique(c.A() - 1, c.A(), 0, c.A() - 1);
  }

  /** ALIGN(SIZE_MAX) wraps to 0 whenever A > 1. */
  lemma AlignWrapsAtSizeMax(c: Config)
    requires c.Valid() && c.alignLog > 0
    ensures c.Align(SizeLimit - 1) == 0
  {
    var a := c.A();
    var y := (SizeLimit - 1 + a - 1) % SizeLimit;
    assert 2 <= a < SizeLimit by {
      Pow2Below(c.alignLog, SizeWidth);
      Pow2Below(0, c.alignLog);
    }
    assert c.Align(SizeLimit - 1) == y - y % a by {
      AlignToRoundsDown(SizeLimit - 1, c.alignLog);
    }
    assert y - y % a == 0 by {
      WrapThenRoundDown(a, SizeLimit);
    }
  }

  /** (l - 1 + a - 1) wraps modulo l to a - 2, which rounds down to 0. */
  lemma WrapThenRoundDown(a: nat, l: nat)
    requires 2 <= a < l
    ensures var y := (l - 1 + a - 1) % l; y - y % a == 0
  {
    WrapOnce(l - 1 + a - 1, l);
    RoundDownSmall(a - 2, a);
  }

  /** AL_HDR_SZ is a multiple of A, at least sizeof(mbheader) and at least A. */
  lemma HeaderSizeAligned(c: Config)
    requires c.Valid()
    ensures c.H() % c.A() == 0
    ensures c.headerSize <= c.H() < c.headerSize + c.A()
    ensures c.A() <= c.H()
  {
    AlignRoundsUp(c, c.headerSize);
    DivModUnique(0, c.A(), 0, 0);
    MultipleGap(0, c.H(), c.A());
  }

  /** MIN_BLOCK_SZ == AL_HDR_SZ + A, since ALIGN(sizeof(char)) == ALIGN(1) == A. */
  lemma MinBlockIsHeaderPlusUnit(c: Config)
    requires c.Valid()
    ensures c.MinBlock() == c.H() + c.A()
  {
    Pow2Below(c.alignLog, SizeWidth);
    AlignToRoundsDown(1, c.alignLog);
    DivModUnique(c.A(), SizeLimit, 0, c.A());
    DivModUnique(c.A(), c.A(), 1, 0);
  }

  /** Sums and differences of multiples of a are multiples of a. */
  lemma SumOfMultiples(x: int, y: int, a: nat)
    requires a >= 1 && x % a == 0 && y % a == 0
    ensures (x + y) % a == 0 && (x - y) % a == 0
  {
    var qx, qy := x / a, y / a;
    assert x == a * qx && y == a * qy;
    assert x + y == a * (qx + qy);
    assert x - y == a * (qx - qy);
    DivModUnique(x + y, a, qx + qy, 0);
    DivModUnique(x - y, a, qx - qy, 0);
  }

  /** ALIGN leaves a multiple of A unchanged when it does not wrap. */
  lemma AlignOfMultiple(c: Config, size: nat)
    requires c.Valid() && size % c.A() == 0 && size + c.A() - 1 < SizeLimit
    ensures c.Align(size) == size
  {
    AlignRoundsUp(c, size);
    var r := c.Align(size);
    if r != size {
      MultipleGap(size, r, c.A());
    }
  }

  /**
   * SIZE_MAX + 1 - AL_HDR_SZ is a size_t that ALIGN leaves unchanged, so
   * for this request ALIGN(size) + AL_HDR_SZ is exactly 2^64.
   */
  lemma OverflowingRequest(c: Config)
    requires c.Valid()
    ensures 1 <= c.H() < SizeLimit && c.Align(SizeLimit - c.H()) == SizeLimit - c.H()
  {
    HeaderSizeAligned(c);
    Pow2Divides(c.alignLog, SizeWidth);
    SumOfMultiples(SizeLimit, c.H(), c.A());
    AlignOfMultiple(c, SizeLimit - c.H());
  }
}
