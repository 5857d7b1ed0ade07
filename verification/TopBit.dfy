/**
 * The branchless search for the highest one of a 32-bit word. Every step keeps, if any is left, only
 * the ones whose position has a one in the binary digit under inspection.
 */
module TopBit {
  import opened BitOps

  const WORD: nat := 0x1_0000_0000

  // ---------------------------------------------------------------- the masks

  /** The word of c blocks, each of w ones above w zeros. */
  function Blocks(w: nat, c: nat): nat {
    if c == 0 then 0 else ShiftLeft(Pow2(w) - 1 + ShiftLeft(Blocks(w, c - 1), w), w)
  }

  /** Whether the power of two w occurs in the binary notation of j. */
  predicate Digit(w: nat, j: nat)
    requires w > 0
  {
    if j < 2 * w then w <= j else Digit(w, j - 2 * w)
  }

  function Span(w: nat, c: nat): nat {
    if c == 0 then 0 else 2 * w + Span(w, c - 1)
  }

  lemma {:induction false} BlocksBit(w: nat, c: nat, j: nat)
    requires w > 0
    ensures Bit(Blocks(w, c), j) <==> j < Span(w, c) && Digit(w, j)
    decreases c
  {
    if c == 0 {
      BitOfZero(j);
    } else {
      var rest := Blocks(w, c - 1);
      ShiftedBit(Pow2(w) - 1 + ShiftLeft(rest, w), w, j);
      if w <= j { OnesBelowBit(rest, w, j - w); }
      if 2 * w <= j { BlocksBit(w, c - 1, j - 2 * w); }
    }
  }

  lemma {:induction false} DigitPeriod(w: nat, c: nat, j: nat)
    requires w > 0
    ensures Digit(w, Span(w, c) + j) <==> Digit(w, j)
  {
    if c > 0 { DigitPeriod(w, c - 1, j); }
  }

  function Value(w: nat, j: nat): nat
    requires w > 0
  {
    if Digit(w, j) then w else 0
  }

  /** Five digits determine a position within a word. */
  lemma FiveDigits(j: nat)
    requires j < 32
    ensures j == Value(16, j) + Value(8, j) + Value(4, j) + Value(2, j) + Value(1, j)
  {
    var j16 := j - Value(16, j);
    if j16 < j {
      DigitPeriod(8, 1, j16); DigitPeriod(4, 2, j16); DigitPeriod(2, 4, j16); DigitPeriod(1, 8, j16);
    }
    var j8 := j16 - Value(8, j16);
    if j8 < j16 { DigitPeriod(4, 1, j8); DigitPeriod(2, 2, j8); DigitPeriod(1, 4, j8); }
    var j4 := j8 - Value(4, j8);
    if j4 < j8 { DigitPeriod(2, 1, j4); DigitPeriod(1, 2, j4); }
    var j2 := j4 - Value(2, j4);
    if j2 < j4 { DigitPeriod(1, 1, j2); }
  }

  lemma {:induction false} ShiftedBit(a: nat, k: nat, j: nat)
    ensures Bit(ShiftLeft(a, k), j) <==> k <= j && Bit(a, j - k)
    decreases k
  {
    if k > 0 {
      ShiftLeftOut(a, k - 1);
      if j > 0 { ShiftedBit(a, k - 1, j - 1); }
    }
  }

  lemma {:induction false} OnesBelowBit(a: nat, k: nat, j: nat)
    ensures Bit(Pow2(k) - 1 + ShiftLeft(a, k), j) <==> j < k || Bit(a, j - k)
  {
    if k > 0 {
      var ones, high := Pow2(k - 1) - 1, ShiftLeft(a, k - 1);
      ShiftLeftOut(a, k - 1);
      assert Pow2(k) - 1 + ShiftLeft(a, k) == 1 + 2 * (ones + high);
      if j > 0 {
        assert (1 + 2 * (ones + high)) / 2 == ones + high;
        OnesBelowBit(a, k - 1, j - 1);
      }
    }
  }

  lemma BlocksStep(w: nat, c: nat, p: nat)
    requires Pow2(w) == p
    ensures Blocks(w, c + 1) == p * (p - 1 + p * Blocks(w, c))
    ensures Span(w, c + 1) == 2 * w + Span(w, c)
  {
    ShiftLeftMultiplies(Blocks(w, c), w);
    ShiftLeftMultiplies(Pow2(w) - 1 + ShiftLeft(Blocks(w, c), w), w);
  }

  lemma {:induction false} PowerDoubles(k: nat)
    ensures Pow2(2 * k) == Pow2(k) * Pow2(k)
  {
    if k > 0 {
      PowerDoubles(k - 1);
      assert Pow2(2 * k) == 4 * Pow2(2 * (k - 1));
    }
  }

  lemma Mask16()
    ensures Blocks(16, 1) == 0xFFFF0000 && Span(16, 1) == 32
  {
    assert Pow2(8) == 0x100;
    PowerDoubles(8);
    BlocksStep(16, 0, 0x10000);
  }

  lemma Mask8()
    ensures Blocks(8, 2) == 0xFF00FF00 && Span(8, 2) == 32
  {
    assert Pow2(8) == 0x100;
    BlocksStep(8, 0, 0x100); BlocksStep(8, 1, 0x100);
  }

  lemma Mask4()
    ensures Blocks(4, 4) == 0xF0F0F0F0 && Span(4, 4) == 32
  {
    BlocksStep(4, 0, 0x10); BlocksStep(4, 1, 0x10); BlocksStep(4, 2, 0x10); BlocksStep(4, 3, 0x10);
  }

  lemma Mask2()
    ensures Blocks(2, 8) == 0xCCCCCCCC && Span(2, 8) == 32
  {
    BlocksStep(2, 0, 4); BlocksStep(2, 1, 4); BlocksStep(2, 2, 4); BlocksStep(2, 3, 4);
    BlocksStep(2, 4, 4); BlocksStep(2, 5, 4); BlocksStep(2, 6, 4); BlocksStep(2, 7, 4);
  }

  lemma Mask1()
    ensures Blocks(1, 16) == 0xAAAAAAAA && Span(1, 16) == 32
  {
    FourPairs(0); FourPairs(4); FourPairs(8); FourPairs(12);
  }

  lemma FourPairs(c: nat)
    ensures Blocks(1, c + 4) == 0xAA + 0x100 * Blocks(1, c)
    ensures Span(1, c + 4) == 8 + Span(1, c)
  {
    BlocksStep(1, c, 2); BlocksStep(1, c + 1, 2); BlocksStep(1, c + 2, 2); BlocksStep(1, c + 3, 2);
  }

  // ---------------------------------------------------------------- the search

  /** j and p have the same digits of weight above w. */
  predicate AgreeAbove(w: nat, j: nat, p: nat) {
    && (w < 16 ==> Digit(16, j) == Digit(16, p))
    && (w < 8 ==> Digit(8, j) == Digit(8, p))
    && (w < 4 ==> Digit(4, j) == Digit(4, p))
    && (w < 2 ==> Digit(2, j) == Digit(2, p))
  }

  /** The one at p is left, and every other one left is below it and agrees with it above w. */
  ghost predicate Narrowed(bits: nat, p: nat, w: nat) {
    && p < 32
    && Bit(bits, p)
    && forall j: nat :: Bit(bits, j) ==> j <= p && AgreeAbove(w, j, p)
  }

  lemma NotAbove(w: nat, j: nat, p: nat)
    requires w in {16, 8, 4, 2, 1} && j <= p < 32
    requires AgreeAbove(w, j, p) && Digit(w, j)
    ensures Digit(w, p)
  {
    hide Digit;
    FiveDigits(j);
    FiveDigits(p);
  }

  /** One step: whether the digit of weight w is in p shows in the masked word, which is then kept. */
  lemma Narrow(bits: nat, p: nat, w: nat, c: nat)
    requires w in {16, 8, 4, 2, 1} && Span(w, c) == 32
    requires Narrowed(bits, p, w)
    ensures And(bits, Blocks(w, c)) != 0 <==> Digit(w, p)
    ensures var rest := if Digit(w, p) then And(bits, Blocks(w, c)) else bits;
            Narrowed(rest, p, w / 2)
  {
    hide Digit;
    var masked := And(bits, Blocks(w, c));
    forall j: nat ensures Bit(masked, j) <==> Bit(bits, j) && j < 32 && Digit(w, j) {
      AndBit(bits, Blocks(w, c), j);
      BlocksBit(w, c, j);
    }
    if masked != 0 {
      TopIsSet(masked);
      NotAbove(w, Log2(masked), p);
    } else {
      BitOfZero(p);
    }
    if !Digit(w, p) {
      forall j: nat | Bit(bits, j) ensures !Digit(w, j) {
        if Digit(w, j) { NotAbove(w, j, p); }
      }
    }
  }

  lemma WordTop(bits: nat)
    requires 0 < bits < WORD
    ensures Narrowed(bits, Log2(bits), 16)
  {
    Log2Monotone(bits, WORD - 1);
    assert Pow2(8) == 0x100;
    PowerDoubles(8);
    PowerDoubles(16);
    assert Pow2(32) == 2 * Pow2(31);
    Log2Unique(WORD - 1, 31);
    TopIsSet(bits);
    forall j: nat | Bit(bits, j) ensures j <= Log2(bits) {
      NothingAboveTop(bits, j);
    }
  }

  method FindTopBit(word: nat) returns (i: int)
    requires word < WORD
    ensures word == 0 ==> i == -1
    ensures word > 0 ==> i == Log2(word) && Pow2(Log2(word)) <= word < 2 * Pow2(Log2(word))
  {
    hide Digit;
    hide Narrowed;
    hide And;
    hide Blocks;
    hide Span;
    hide Log2;
    hide Pow2;
    if word == 0 {
      return -1;
    }
    var bits := word;
    ghost var p := Log2(word);
    Log2Bounds(word); WordTop(word); FiveDigits(p);
    Mask16(); Mask8(); Mask4(); Mask2(); Mask1();
    i := 0;
    Narrow(bits, p, 16, 1);
    if And(bits, 0xFFFF0000) != 0 {
      bits := And(bits, 0xFFFF0000);
      i := i + 16;
    }
    Narrow(bits, p, 8, 2);
    if And(bits, 0xFF00FF00) != 0 {
      bits := And(bits, 0xFF00FF00);
      i := i + 8;
    }
    Narrow(bits, p, 4, 4);
    if And(bits, 0xF0F0F0F0) != 0 {
      bits := And(bits, 0xF0F0F0F0);
      i := i + 4;
    }
    Narrow(bits, p, 2, 8);
    if And(bits, 0xCCCCCCCC) != 0 {
      bits := And(bits, 0xCCCCCCCC);
      i := i + 2;
    }
    Narrow(bits, p, 1, 16);
    if And(bits, 0xAAAAAAAA) != 0 {
      bits := And(bits, 0xAAAAAAAA);
      i := i + 1;
    }
  }
}
