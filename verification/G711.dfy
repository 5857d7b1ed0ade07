/**
 * Companding of linear samples to the eight bits of G.711 and back. Both laws cut the magnitude into
 * eight segments, double the step from one to the next, and keep the number of the step: what
 * decoding gives back is the midpoint of the cell the magnitude was in.
 */
module G711 {
  import opened BitOps
  import opened Bytes
  import opened TopBit

  const ULAW_BIAS: nat := 0x84
  const ALAW_AMI_MASK: nat := 0x55
  const INT_MAX: int := 0x7FFF_FFFF

  datatype Law = Mu | A

  // ---------------------------------------------------------------- segments and cells

  /** Segment s > 0 holds the magnitudes from 128 * 2^s up to 256 * 2^s. */
  function Segment(m: nat): nat {
    if m < 256 then 0 else (Log2Monotone(256, m); Log2Unique(256, 8); Log2(m) - 7)
  }

  function Step(law: Law, s: nat): (r: nat)
    ensures r > 0
  {
    if law.A? && s == 0 then 16 else 8 * Pow2(s)
  }

  /** The number of the cell that m is in, counted from zero in steps of its segment. */
  function Cell(law: Law, m: nat): nat {
    CellsAreNatural(m, Step(law, Segment(m)));
    m / Step(law, Segment(m))
  }

  /** The midpoint of the cell that m is in. */
  function Level(law: Law, m: nat): nat {
    var step := Step(law, Segment(m));
    Cell(law, m) * step + step / 2
  }

  /** Magnitudes beyond the eight segments count as the largest inside them. */
  function Clip(m: nat): nat {
    if m < 0x8000 then m else 0x7FFF
  }

  /** The seven bits kept of a magnitude. */
  function Code(law: Law, m: nat): nat {
    16 * Segment(m) + Cell(law, m) % 16
  }

  /** The magnitude that seven bits stand for. */
  function Decoded(law: Law, c: nat): nat {
    var s, q := c / 16, c % 16;
    match law
    case Mu => (8 * q + ULAW_BIAS) * Pow2(s)
    case A => if s == 0 then 16 * q + 8 else (16 * q + 0x108) * Pow2(s - 1)
  }

  lemma CellsAreNatural(m: nat, step: nat)
    requires step > 0
    ensures m / step >= 0 && m / step * step == m - m % step >= 0
  {
    assert m == m / step * step + m % step;
  }

  lemma SegmentBounds(m: nat)
    ensures var s := Segment(m); (s == 0 || 128 * Pow2(s) <= m) && m < 256 * Pow2(s)
    ensures Segment(m) < 8 <==> m < 0x8000
  {
    hide Pow2;
    hide Log2;
    SegmentTop(m);
    if m >= 256 {
      Log2Bounds(m);
      SevenHigher(Log2(m) - 7);
    } else {
      OneIsPower();
    }
  }

  lemma OneIsPower()
    ensures Pow2(0) == 1
  {
  }

  /** A magnitude has fifteen bits or fewer exactly if it is below 2^15. */
  lemma SegmentTop(m: nat)
    ensures Segment(m) < 8 <==> m < 0x8000
    ensures m >= 256 ==> Log2(m) >= 8
  {
    hide Pow2;
    hide Log2;
    BoundaryLogs();
    if m >= 0x8000 { Log2Monotone(0x8000, m); }
    if 256 <= m < 0x8000 { Log2Monotone(m, 0x7FFF); }
    if m >= 256 { Log2Monotone(256, m); }
  }

  lemma BoundaryLogs()
    ensures Log2(256) == 8 && Log2(0x7FFF) == 14 && Log2(0x8000) == 15
  {
    hide Log2;
    assert Pow2(8) == 256;
    PowerDoubles(8);
    assert Pow2(16) == 2 * Pow2(15) && 2 * Pow2(14) == Pow2(15);
    Log2Unique(256, 8);
    Log2Unique(0x8000, 15);
    Log2Unique(0x7FFF, 14);
  }

  lemma SevenHigher(s: nat)
    ensures Pow2(s + 7) == 128 * Pow2(s)
  {
    assert Pow2(s + 7) == 2 * Pow2(s + 6) && Pow2(s + 6) == 2 * Pow2(s + 5);
    assert Pow2(s + 5) == 2 * Pow2(s + 4) && Pow2(s + 4) == 2 * Pow2(s + 3);
    assert Pow2(s + 3) == 2 * Pow2(s + 2) && Pow2(s + 2) == 2 * Pow2(s + 1);
  }

  lemma SegmentIs(m: nat, s: nat)
    requires s == 0 || 128 * Pow2(s) <= m
    requires m < 256 * Pow2(s)
    ensures Segment(m) == s
  {
    if s > 0 {
      SevenHigher(s);
      assert Pow2(s) == 2 * Pow2(s - 1);
      Log2Unique(m, s + 7);
    }
  }

  lemma SegmentMonotone(m: nat, n: nat)
    requires m <= n
    ensures Segment(m) <= Segment(n)
  {
    if m >= 256 { Log2Monotone(m, n); }
  }

  // ---------------------------------------------------------------- midpoints

  /** Magnitudes the law encodes by their own cell: the mu-law bias keeps them off its lowest half. */
  predicate InCells(law: Law, m: nat) {
    (law.Mu? ==> m >= 128) && m < 0x8000
  }

  /** Sixteen cells to a segment, except that the lowest A-law segment counts them from zero. */
  predicate IsCell(law: Law, s: nat, q: nat) {
    if law.A? && s == 0 then q < 16 else 16 <= q < 32
  }

  lemma CellOf(law: Law, m: nat)
    requires InCells(law, m)
    ensures Segment(m) < 8 && IsCell(law, Segment(m), Cell(law, m))
  {
    SegmentBounds(m);
    var s := Segment(m);
    var low := if law.A? && s == 0 then 0 else 16;
    QuotientBounds(m, Step(law, s), low, if law.A? && s == 0 then 16 else 32);
  }

  lemma QuotientBounds(m: nat, d: nat, low: nat, high: nat)
    requires d > 0 && low * d <= m < high * d
    ensures low <= m / d < high
  {
    var q := m / d;
    assert m == q * d + m % d;
    assert low - q >= 1 ==> (low - q) * d >= d;
    assert q - high >= 0 ==> (q - high) * d >= 0;
    assert (low - q) * d == low * d - q * d;
    assert (q - high) * d == q * d - high * d;
  }

  /** Everything in cell q of segment s is encoded and decoded the same way. */
  lemma InCell(law: Law, m: nat, s: nat, q: nat)
    requires s < 8 && IsCell(law, s, q)
    requires var step := Step(law, s); q * step <= m < q * step + step
    ensures Segment(m) == s && Cell(law, m) == q && InCells(law, m)
    ensures Level(law, m) == q * Step(law, s) + Step(law, s) / 2
    ensures Code(law, m) == 16 * s + q % 16
  {
    hide Log2;
    InCellSegment(law, m, s, q, Step(law, s));
    SegmentBounds(m);
    Quotient(m, Step(law, s), q, m - q * Step(law, s));
  }

  lemma InCellSegment(law: Law, m: nat, s: nat, q: nat, step: nat)
    requires s < 8 && IsCell(law, s, q)
    requires step == Step(law, s) && q * step <= m < q * step + step
    ensures Segment(m) == s
    ensures law.Mu? ==> m >= 128
  {
    hide Segment;
    hide Pow2;
    OneIsPower();
    if !(law.A? && s == 0) { UpperCells(q, step); }
    SegmentIs(m, s);
  }

  lemma UpperCells(q: nat, step: nat)
    requires 16 <= q < 32
    ensures 16 * step <= q * step && q * step + step <= 32 * step
  {
    assert (q - 16) * step >= 0;
    assert (31 - q) * step >= 0;
  }

  lemma MuMidpoint(q: nat, p: nat)
    requires q >= 16
    ensures (8 * (q - 16) + 132) * p == q * (8 * p) + 8 * p / 2
  {
    assert (8 * (q - 16) + 132) * p == 8 * (q * p) + 4 * p;
    assert q * (8 * p) == 8 * (q * p);
  }

  lemma AMidpoint(q: nat, p: nat)
    requires q >= 16
    ensures (16 * (q - 16) + 264) * p == q * (8 * (2 * p)) + 8 * (2 * p) / 2
  {
    assert (16 * (q - 16) + 264) * p == 16 * (q * p) + 8 * p;
    assert q * (8 * (2 * p)) == 16 * (q * p);
  }

  /** Decoding a code word and encoding a magnitude meet at the midpoint of a cell. */
  lemma DecodedLevel(law: Law, s: nat, q: nat)
    requires s < 8 && IsCell(law, s, q)
    ensures Decoded(law, 16 * s + q % 16) == q * Step(law, s) + Step(law, s) / 2
  {
    var c := 16 * s + q % 16;
    assert c / 16 == s && c % 16 == q % 16;
    if law.Mu? {
      MuMidpoint(q, Pow2(s));
    } else if s > 0 {
      AMidpoint(q, Pow2(s - 1));
    }
  }

  lemma DecodeAfterEncode(law: Law, m: nat)
    requires InCells(law, m)
    ensures Code(law, m) < 128
    ensures Decoded(law, Code(law, m)) == Level(law, m)
  {
    CellOf(law, m);
    DecodedLevel(law, Segment(m), Cell(law, m));
  }

  lemma EncodeAfterDecode(law: Law, c: nat)
    requires c < 128
    ensures var m := Decoded(law, c);
            m > 0 && InCells(law, m) && Code(law, m) == c && Code(law, m - 1) == c
  {
    hide Decoded;
    hide Code;
    hide InCells;
    hide Segment;
    hide Level;
    var s := c / 16;
    var q := if law.A? && s == 0 then c % 16 else 16 + c % 16;
    DecodedLevel(law, s, q);
    InCell(law, Decoded(law, c), s, q);
    InCell(law, Decoded(law, c) - 1, s, q);
  }

  /** The midpoint is within half a step of everything in its cell. */
  lemma LevelIsNear(law: Law, m: nat)
    ensures var half := Step(law, Segment(m)) / 2; -half <= m - Level(law, m) < half
  {
    CellsAreNatural(m, Step(law, Segment(m)));
  }

  lemma LevelMonotone(law: Law, m: nat, n: nat)
    requires InCells(law, m) && InCells(law, n) && m <= n
    ensures Level(law, m) <= Level(law, n)
  {
    CellOf(law, m);
    CellOf(law, n);
    SegmentMonotone(m, n);
    var s, t := Segment(m), Segment(n);
    if s == t {
      QuotientMonotone(m, n, Step(law, s));
    } else {
      LevelsInSegment(law, m);
      LevelsInSegment(law, n);
      PowerMonotone(s + 1, t);
    }
  }

  lemma LevelsInSegment(law: Law, m: nat)
    requires InCells(law, m)
    ensures var s := Segment(m); (s == 0 || 128 * Pow2(s) <= Level(law, m)) && Level(law, m) < 256 * Pow2(s)
  {
    hide Segment;
    hide Cell;
    CellOf(law, m);
    if law.Mu? || Segment(m) > 0 { MidpointBounds(Step(law, Segment(m)), Cell(law, m)); }
  }

  lemma MidpointBounds(step: nat, q: nat)
    requires step > 0 && 16 <= q < 32
    ensures 16 * step <= q * step + step / 2 < 32 * step
  {
    assert (q - 16) * step >= 0;
    assert (31 - q) * step >= 0;
  }

  lemma QuotientMonotone(m: nat, n: nat, d: nat)
    requires d > 0 && m <= n
    ensures m / d * d <= n / d * d
  {
    var k := m / d - n / d;
    assert m == m / d * d + m % d && n == n / d * d + n % d;
    assert k >= 1 ==> k * d >= d;
    assert k <= 0 ==> k * d <= 0;
    assert k * d == m / d * d - n / d * d;
  }

  lemma {:induction false} PowerMonotone(j: nat, k: nat)
    requires j <= k
    ensures Pow2(j) <= Pow2(k)
  {
    if j < k { PowerMonotone(j, k - 1); }
  }

  /** Larger magnitudes have larger codes. */
  lemma CodeMonotone(law: Law, m: nat, n: nat)
    requires InCells(law, m) && InCells(law, n) && m <= n
    ensures Code(law, m) <= Code(law, n)
  {
    hide Segment;
    CellOf(law, m);
    CellOf(law, n);
    SegmentMonotone(m, n);
    if Segment(m) == Segment(n) { QuotientOrder(m, n, Step(law, Segment(m))); }
  }

  lemma QuotientOrder(m: nat, n: nat, d: nat)
    requires d > 0 && m <= n
    ensures m / d <= n / d
  {
    QuotientMonotone(m, n, d);
    var k := m / d - n / d;
    assert k * d == m / d * d - n / d * d;
    assert k >= 1 ==> k * d >= d;
  }

  // ---------------------------------------------------------------- the mu-law

  /** Magnitudes are biased; that of a negative sample counts from -1. */
  function UlawMagnitude(x: int): nat {
    if x < 0 then ULAW_BIAS - x - 1 else ULAW_BIAS + x
  }

  /** The code word is sent complemented, with the sign in its top bit. */
  function ToUlaw(x: int): (u: byte) {
    DecodeAfterEncode(Mu, Clip(UlawMagnitude(x)));
    (if x < 0 then 127 else 255) - Code(Mu, Clip(UlawMagnitude(x)))
  }

  function FromUlaw(u: byte): int {
    if u < 128 then ULAW_BIAS - Decoded(Mu, 127 - u) else Decoded(Mu, 255 - u) - ULAW_BIAS
  }

  lemma UlawIsMidpoint(x: int)
    ensures var level := Level(Mu, Clip(UlawMagnitude(x)));
            FromUlaw(ToUlaw(x)) == if x < 0 then ULAW_BIAS - level else level - ULAW_BIAS
  {
    hide Decoded;
    hide Code;
    DecodeAfterEncode(Mu, Clip(UlawMagnitude(x)));
  }

  /** Inside the range, half a step of the segment is the most that is lost. */
  lemma UlawError(x: int)
    requires -32636 <= x <= 32635
    ensures var half := 4 * Pow2(Segment(UlawMagnitude(x)));
            -half <= FromUlaw(ToUlaw(x)) - x <= half
  {
    hide FromUlaw;
    hide ToUlaw;
    hide Level;
    UlawIsMidpoint(x);
    LevelIsNear(Mu, UlawMagnitude(x));
  }

  /** Outside it, the outermost level is all there is. */
  lemma UlawSaturates(x: int)
    ensures x > 32635 ==> FromUlaw(ToUlaw(x)) == 32124
    ensures x < -32636 ==> FromUlaw(ToUlaw(x)) == -32124
  {
    hide FromUlaw;
    hide ToUlaw;
    UlawIsMidpoint(x);
    TopLevel(Mu);
  }

  lemma TopLevel(law: Law)
    ensures Level(law, 0x7FFF) == 32256
  {
    assert Pow2(7) == 128;
    SegmentIs(0x7FFF, 7);
    InCell(law, 0x7FFF, 7, 31);
  }

  lemma UlawMonotone(x: int, y: int)
    requires x <= y
    ensures FromUlaw(ToUlaw(x)) <= FromUlaw(ToUlaw(y))
  {
    hide FromUlaw;
    hide ToUlaw;
    hide Level;
    UlawIsMidpoint(x);
    UlawIsMidpoint(y);
    var m, n := Clip(UlawMagnitude(x)), Clip(UlawMagnitude(y));
    LevelMonotone(Mu, 132, m);
    LevelMonotone(Mu, 132, n);
    LowestLevel();
    if 0 <= x { LevelMonotone(Mu, m, n); }
    if y < 0 { LevelMonotone(Mu, n, m); }
  }

  lemma LowestLevel()
    ensures Level(Mu, 132) == 132
  {
    InCell(Mu, 132, 0, 16);
  }

  /** Encoding takes back every code word but the one for minus zero, which becomes plus zero. */
  lemma UlawCodesRoundTrip(u: byte)
    ensures ToUlaw(FromUlaw(u)) == u <==> u != 0x7F
    ensures ToUlaw(FromUlaw(0x7F)) == 0xFF
  {
    UlawZeros();
    if u != 0x7F {
      var c := if u < 128 then 127 - u else 255 - u;
      var t := Decoded(Mu, c);
      EncodeAfterDecode(Mu, c);
      AboveZero(c);
      UlawReencoded(u, t);
    }
  }

  lemma UlawZeros()
    ensures FromUlaw(0x7F) == 0 && FromUlaw(0xFF) == 0 && ToUlaw(0) == 0xFF
  {
    assert Decoded(Mu, 0) == 132;
    EncodeAfterDecode(Mu, 0);
  }

  lemma AboveZero(c: nat)
    requires c < 128
    ensures Decoded(Mu, c) >= 132
    ensures c > 0 ==> Decoded(Mu, c) > 132
  {
    var p := Pow2(c / 16);
    assert (8 * (c % 16) + 132) * (p - 1) >= 0;
    assert c / 16 > 0 ==> p == 2 * Pow2(c / 16 - 1) && (8 * (c % 16) + 132) * (p - 2) >= 0;
  }

  lemma UlawReencoded(u: byte, t: nat)
    requires u != 0x7F
    requires var c := if u < 128 then 127 - u else 255 - u;
             t == Decoded(Mu, c) && InCells(Mu, t) && Code(Mu, t) == c && Code(Mu, t - 1) == c
             && t >= 132 && (c > 0 ==> t > 132)
    ensures ToUlaw(FromUlaw(u)) == u
  {
    hide Decoded;
    hide Code;
  }

  /**
   * The words sent: the top bit is set on what is not negative, and away from zero, either way, the other
   * seven count down from all ones.
   */
  lemma UlawCodesOrdered(x: int, y: int)
    requires x <= y
    ensures ToUlaw(x) >= 128 <==> x >= 0
    ensures x >= 0 ==> ToUlaw(y) <= ToUlaw(x) <= 0xFF == ToUlaw(0)
    ensures y < 0 ==> ToUlaw(x) <= ToUlaw(y) <= 0x7F == ToUlaw(-1)
  {
    hide Code;
    hide Segment;
    var m, n := Clip(UlawMagnitude(x)), Clip(UlawMagnitude(y));
    DecodeAfterEncode(Mu, m);
    DecodeAfterEncode(Mu, n);
    if x >= 0 { CodeMonotone(Mu, m, n); }
    if y < 0 { CodeMonotone(Mu, n, m); }
    InCell(Mu, 132, 0, 16);
  }

  lemma UlawIdempotent(x: int)
    ensures FromUlaw(ToUlaw(FromUlaw(ToUlaw(x)))) == FromUlaw(ToUlaw(x))
  {
    hide FromUlaw;
    hide ToUlaw;
    UlawCodesRoundTrip(ToUlaw(x));
    UlawZeros();
  }

  // ---------------------------------------------------------------- the A-law

  function AlawMagnitude(x: int): nat {
    if x >= 0 then x else -x - 1
  }

  /** Every other bit of the code word is inverted, and the top bit is set on what is not negative. */
  function ToAlaw(x: int): (a: byte) {
    var c := Code(A, Clip(AlawMagnitude(x)));
    var mask := if x >= 0 then 0xD5 else ALAW_AMI_MASK;
    DecodeAfterEncode(A, Clip(AlawMagnitude(x)));
    assert Pow2(8) == 256;
    XorBelow(c, mask, 8);
    Xor(c, mask)
  }

  function FromAlaw(a: byte): int {
    var plain := Xor(a, ALAW_AMI_MASK);
    if plain >= 128 then Decoded(A, plain - 128) else 0 - Decoded(A, plain)
  }

  /** The mask of a positive sample is the mask of a negative one and the sign bit. */
  lemma Masks(c: nat)
    requires c < 128
    ensures Xor(Xor(c, ALAW_AMI_MASK), ALAW_AMI_MASK) == c
    ensures Xor(Xor(c, 0xD5), ALAW_AMI_MASK) == c + 128
    ensures Xor(c + 128, ALAW_AMI_MASK) == Xor(c, 0xD5)
  {
    hide Xor;
    assert Pow2(7) == 128;
    MaskValues();
    XorSelf(ALAW_AMI_MASK);
    XorZero(c);
    XorAssociative(c, ALAW_AMI_MASK, ALAW_AMI_MASK);
    XorAssociative(c, 0xD5, ALAW_AMI_MASK);
    XorAssociative(c, 128, ALAW_AMI_MASK);
    XorPowerAbove(c, 7);
  }

  lemma MaskValues()
    ensures Xor(0xD5, ALAW_AMI_MASK) == 128 && Xor(128, ALAW_AMI_MASK) == 0xD5
  {
    hide Xor;
    assert Pow2(7) == 128;
    XorPowerAbove(ALAW_AMI_MASK, 7);
    XorCommutes(ALAW_AMI_MASK, 128);
    XorAssociative(128, ALAW_AMI_MASK, ALAW_AMI_MASK);
    XorSelf(ALAW_AMI_MASK);
    XorZero(128);
  }

  lemma AlawIsMidpoint(x: int)
    ensures var level := Level(A, Clip(AlawMagnitude(x)));
            FromAlaw(ToAlaw(x)) == if x < 0 then 0 - level else level
  {
    hide Decoded;
    hide Code;
    hide Xor;
    hide Level;
    DecodeAfterEncode(A, Clip(AlawMagnitude(x)));
    Masks(Code(A, Clip(AlawMagnitude(x))));
  }

  lemma AlawError(x: int)
    requires -32768 <= x <= 32767
    ensures var s := Segment(AlawMagnitude(x));
            var half := if s == 0 then 8 else 4 * Pow2(s);
            -half <= FromAlaw(ToAlaw(x)) - x <= half
  {
    hide FromAlaw;
    hide ToAlaw;
    hide Level;
    AlawIsMidpoint(x);
    LevelIsNear(A, AlawMagnitude(x));
  }

  lemma AlawSaturates(x: int)
    ensures x > 32767 ==> FromAlaw(ToAlaw(x)) == 32256
    ensures x < -32768 ==> FromAlaw(ToAlaw(x)) == -32256
  {
    hide FromAlaw;
    hide ToAlaw;
    AlawIsMidpoint(x);
    TopLevel(A);
  }

  lemma AlawMonotone(x: int, y: int)
    requires x <= y
    ensures FromAlaw(ToAlaw(x)) <= FromAlaw(ToAlaw(y))
  {
    hide FromAlaw;
    hide ToAlaw;
    hide Level;
    AlawIsMidpoint(x);
    AlawIsMidpoint(y);
    var m, n := Clip(AlawMagnitude(x)), Clip(AlawMagnitude(y));
    if 0 <= x { LevelMonotone(A, m, n); }
    if y < 0 { LevelMonotone(A, n, m); }
  }

  /** Encoding takes back every code word. */
  lemma AlawCodesRoundTrip(a: byte)
    ensures ToAlaw(FromAlaw(a)) == a
  {
    hide Decoded;
    hide Code;
    hide Xor;
    var plain := Xor(a, ALAW_AMI_MASK);
    assert Pow2(8) == 256;
    XorBelow(a, ALAW_AMI_MASK, 8);
    XorAssociative(a, ALAW_AMI_MASK, ALAW_AMI_MASK);
    XorSelf(ALAW_AMI_MASK);
    XorZero(a);
    var c := if plain >= 128 then plain - 128 else plain;
    EncodeAfterDecode(A, c);
    Masks(c);
  }

  /**
   * The words sent, with every other bit inverted back: the top bit is set on what is not negative, and the
   * other seven count up from zero.
   */
  lemma AlawCodesOrdered(x: int, y: int)
    requires x <= y
    ensures var p, q := Xor(ToAlaw(x), 0x55), Xor(ToAlaw(y), 0x55);
      && (p >= 128 <==> x >= 0)
      && (x >= 0 ==> 128 <= p <= q < 256)
      && (y < 0 ==> 0 <= q <= p < 128)
    ensures Xor(ToAlaw(0), 0x55) == 128 && Xor(ToAlaw(-1), 0x55) == 0
  {
    hide Code;
    hide Segment;
    hide Xor;
    AlawPlain(x);
    AlawPlain(y);
    AlawPlain(0);
    AlawPlain(-1);
    var m, n := Clip(AlawMagnitude(x)), Clip(AlawMagnitude(y));
    if x >= 0 { CodeMonotone(A, m, n); }
    if y < 0 { CodeMonotone(A, n, m); }
    InCell(A, 0, 0, 0);
  }

  lemma AlawPlain(x: int)
    ensures var c := Code(A, Clip(AlawMagnitude(x)));
            c < 128 && Xor(ToAlaw(x), 0x55) == if x >= 0 then c + 128 else c
  {
    hide Code;
    hide Xor;
    DecodeAfterEncode(A, Clip(AlawMagnitude(x)));
    Masks(Code(A, Clip(AlawMagnitude(x))));
  }

  lemma AlawIdempotent(x: int)
    ensures FromAlaw(ToAlaw(FromAlaw(ToAlaw(x)))) == FromAlaw(ToAlaw(x))
  {
    AlawCodesRoundTrip(ToAlaw(x));
  }

  // ---------------------------------------------------------------- the code

  /** Both encoders find the segment by looking for the top bit, with the low eight set. */
  method FindSegment(m: nat) returns (seg: int)
    requires m <= INT_MAX
    ensures m < 0x8000 ==> seg == Segment(m)
    ensures m >= 0x8000 ==> seg >= 8
  {
    hide Pow2;
    OrAtMostSum(m, 0xFF);
    EightOnes(m);
    SegmentBounds(m);
    var top := FindTopBit(Or(m, 0xFF));
    seg := top - 7;
  }

  lemma EightOnes(m: nat)
    ensures Or(m, 0xFF) > 0
    ensures Log2(Or(m, 0xFF)) == Segment(m) + 7
  {
    assert Pow2(8) == 256;
    Log2OfOrOnes(m, 8);
  }

  /** The sign-less code word put together from segment and step. */
  method Pack(m: nat, seg: nat, shift: nat, mask: nat, ghost law: Law) returns (c: nat)
    requires InCells(law, m) && seg == Segment(m) && Step(law, seg) == Pow2(shift)
    ensures c == Xor(Code(law, m), mask)
  {
    hide Xor;
    PackedCode(law, m, seg, shift);
    c := Xor(Or(ShiftLeft(seg, 4), And(ShiftRight(m, shift), 0xF)), mask);
  }

  lemma PackedCode(law: Law, m: nat, seg: nat, shift: nat)
    requires InCells(law, m) && seg == Segment(m) && Step(law, seg) == Pow2(shift)
    ensures Or(ShiftLeft(seg, 4), And(ShiftRight(m, shift), 0xF)) == Code(law, m)
  {
    hide Or;
    hide And;
    hide ShiftRight;
    hide ShiftLeft;
    hide Segment;
    ShiftRightDivides(m, shift);
    assert Pow2(4) == 16;
    AndOnes(ShiftRight(m, shift), 4);
    OrDisjoint(seg, ShiftRight(m, shift) % 16, 4);
    ShiftLeftMultiplies(seg, 4);
  }

  lemma ShiftOfSegment(s: nat)
    ensures Step(Mu, s) == Pow2(s + 3)
    ensures Step(A, s) == Pow2(if s > 0 then s + 3 else 4)
  {
    assert Pow2(s + 3) == 2 * Pow2(s + 2) && Pow2(s + 2) == 2 * Pow2(s + 1);
    assert Pow2(4) == 16;
  }

  /** Samples are C ints; the two ends are where biasing one would overflow. */
  method LinearToUlaw(sample: int) returns (u: byte)
    requires ULAW_BIAS - INT_MAX <= sample <= INT_MAX - ULAW_BIAS
    ensures u == ToUlaw(sample)
  {
    hide Code;
    hide Segment;
    hide Step;
    hide Xor;
    hide Pow2;
    var linear, mask;
    if sample < 0 {
      linear := ULAW_BIAS - sample - 1;
      mask := 0x7F;
    } else {
      linear := ULAW_BIAS + sample;
      mask := 0xFF;
    }
    UlawMask(Clip(linear));
    var seg := FindSegment(linear);
    if seg >= 8 {
      SegmentBounds(linear);
      TopCode(Mu);
      u := Xor(0x7F, mask);
    } else {
      SegmentBounds(linear);
      ShiftOfSegment(seg);
      u := Pack(linear, seg, seg + 3, mask, Mu);
    }
  }

  lemma UlawMask(m: nat)
    requires InCells(Mu, m)
    ensures var c := Code(Mu, m); c < 128 && Xor(c, 0x7F) == 127 - c && Xor(c, 0xFF) == 255 - c
  {
    hide Xor;
    DecodeAfterEncode(Mu, m);
    assert Pow2(7) == 128 && Pow2(8) == 256;
    XorOnes(Code(Mu, m), 7);
    XorOnes(Code(Mu, m), 8);
  }

  lemma TopCode(law: Law)
    ensures Code(law, 0x7FFF) == 0x7F
  {
    assert Pow2(7) == 128;
    InCell(law, 0x7FFF, 7, 31);
  }

  /**
   * The magnitude of a negative sample has been made non-negative by the time it is looked at again,
   * so the branch for "just a tiny step below zero" is never taken and is not written out here.
   */
  method LinearToAlaw(sample: int) returns (a: byte)
    requires -INT_MAX - 1 < sample <= INT_MAX
    ensures a == ToAlaw(sample)
  {
    hide Code;
    hide Segment;
    hide Step;
    hide Xor;
    hide Pow2;
    var linear, mask := sample, 0xD5;
    if sample < 0 {
      mask := ALAW_AMI_MASK;
      linear := -sample - 1;
    }
    AlawMask(Clip(linear), mask);
    var seg := FindSegment(linear);
    SegmentBounds(linear);
    if seg >= 8 {
      TopCode(A);
      a := Xor(0x7F, mask);
    } else {
      ShiftOfSegment(seg);
      a := Pack(linear, seg, if seg > 0 then seg + 3 else 4, mask, A);
    }
  }

  lemma AlawMask(m: nat, mask: nat)
    requires InCells(A, m) && mask < 256
    ensures Xor(Code(A, m), mask) < 256
  {
    hide Xor;
    DecodeAfterEncode(A, m);
    assert Pow2(8) == 256;
    XorBelow(Code(A, m), mask, 8);
  }

  /** The three fields the decoders cut out of a byte. */
  lemma Fields(u: byte)
    ensures And(u, 0x0F) == u % 16
    ensures ShiftRight(And(u, 0x70), 4) == u / 16 % 8
    ensures And(u, 0x80) != 0 <==> u >= 128
  {
    hide And;
    hide ShiftRight;
    hide ShiftLeft;
    assert Pow2(4) == 16 && Pow2(3) == 8 && Pow2(1) == 2 && Pow2(7) == 128;
    AndOnes(u, 4);
    AndShifted(u, 7, 4);
    ShiftLeftMultiplies(7, 4);
    ShiftRightDivides(u, 4);
    AndOnes(u / 16, 3);
    ShiftBack(u / 16 % 8, 4);
    AndShifted(u, 1, 7);
    ShiftLeftMultiplies(1, 7);
    ShiftRightDivides(u, 7);
    AndOnes(u / 128, 1);
    ShiftLeftMultiplies(u / 128 % 2, 7);
  }

  method UlawToLinear(code: byte) returns (sample: int)
    ensures sample == FromUlaw(code)
    ensures -0x8000 <= sample < 0x8000
  {
    hide And;
    hide ShiftRight;
    hide ShiftLeft;
    hide Decoded;
    var ulaw: byte := 255 - code;
    Fields(ulaw);
    UlawFields(ulaw % 128);
    var t := ShiftLeft(ShiftLeft(And(ulaw, 0x0F), 3) + ULAW_BIAS, ShiftRight(And(ulaw, 0x70), 4));
    sample := if And(ulaw, 0x80) != 0 then ULAW_BIAS - t else t - ULAW_BIAS;
  }

  lemma UlawFields(c: nat)
    requires c < 128
    ensures ShiftLeft(ShiftLeft(c % 16, 3) + ULAW_BIAS, c / 16 % 8) == Decoded(Mu, c) < 0x8000
  {
    hide ShiftLeft;
    hide Pow2;
    DecodedFits(Mu, c);
    ShiftLeftBy(c % 16, 3, 8);
    ShiftLeftMultiplies(8 * (c % 16) + ULAW_BIAS, c / 16);
  }

  lemma ShiftLeftBy(a: nat, k: nat, p: nat)
    requires (k == 3 && p == 8) || (k == 4 && p == 16)
    ensures ShiftLeft(a, k) == p * a
  {
    hide ShiftLeft;
    assert Pow2(3) == 8 && Pow2(4) == 16;
    ShiftLeftMultiplies(a, k);
  }

  /** What is decoded fits the sixteen bits it is returned in. */
  lemma DecodedFits(law: Law, c: nat)
    requires c < 128
    ensures Decoded(law, c) < 0x8000
  {
    EncodeAfterDecode(law, c);
  }

  method AlawToLinear(code: byte) returns (sample: int)
    ensures sample == FromAlaw(code)
    ensures -0x8000 <= sample < 0x8000
  {
    hide And;
    hide Xor;
    hide ShiftRight;
    hide ShiftLeft;
    hide Decoded;
    AlawByte(code);
    var alaw: byte := Xor(code, ALAW_AMI_MASK);
    Fields(alaw);
    var i := AlawMagnitudeOf(alaw);
    if And(alaw, 0x80) != 0 {
      sample := i;
    } else {
      sample := -i;
    }
  }

  /** The shifts and sums of the decoder, without the sign. */
  method AlawMagnitudeOf(alaw: byte) returns (i: int)
    ensures i == Decoded(A, alaw % 128) < 0x8000
  {
    hide And;
    hide ShiftRight;
    hide ShiftLeft;
    hide Decoded;
    Fields(alaw);
    AlawFields(alaw % 128);
    i := ShiftLeft(And(alaw, 0x0F), 4);
    var seg := ShiftRight(And(alaw, 0x70), 4);
    if seg != 0 {
      i := ShiftLeft(i + 0x108, seg - 1);
    } else {
      i := i + 8;
    }
  }

  lemma AlawByte(code: byte)
    ensures Xor(code, ALAW_AMI_MASK) < 256
  {
    assert Pow2(8) == 256;
    XorBelow(code, ALAW_AMI_MASK, 8);
  }

  lemma AlawFields(c: nat)
    requires c < 128
    ensures var i, seg := ShiftLeft(c % 16, 4), c / 16 % 8;
            (if seg > 0 then ShiftLeft(i + 0x108, seg - 1) else i + 8) == Decoded(A, c) < 0x8000
  {
    hide ShiftLeft;
    hide Pow2;
    DecodedFits(A, c);
    ShiftLeftBy(c % 16, 4, 16);
    if c / 16 > 0 { ShiftLeftMultiplies(16 * (c % 16) + 0x108, c / 16 - 1); }
  }
}
