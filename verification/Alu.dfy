/**
 The interpreter's bitwise carry and overflow formulas (the ADDFLAGS, SUBFLAGS and
 ZNFLAGS macros), and the arithmetic on numbers they stand for.
 */
module Alu {
  import opened Words

  datatype Flags = Flags(n: bool, z: bool, c: bool, v: bool)

  // ---------- the reference: arithmetic on numbers ----------

  function Count(b: bool): nat {
    if b then 1 else 0
  }

  predicate FitsSigned(x: int) {
    -MODULUS / 2 <= x < MODULUS / 2
  }

  function SumWord(a: word, b: word, carry: bool): word {
    Add(Add(a, b), BoolWord(carry))
  }

  /** Carry: the unsigned sum needs more than 32 bits.  Overflow: the signed one does. */
  function SumFlags(a: word, b: word, carry: bool): Flags {
    var r := SumWord(a, b, carry);
    Flags(Negative(r), r == 0,
          Unsigned(a) + Unsigned(b) + Count(carry) >= MODULUS,
          !FitsSigned(Signed(a) + Signed(b) + Count(carry)))
  }

  function DifferenceWord(a: word, b: word, carry: bool): word {
    Sub(Sub(a, b), BoolWord(!carry))
  }

  /** For a subtraction the carry means that nothing was borrowed. */
  function DifferenceFlags(a: word, b: word, carry: bool): Flags {
    var r := DifferenceWord(a, b, carry);
    Flags(Negative(r), r == 0,
          Unsigned(a) >= Unsigned(b) + Count(!carry),
          !FitsSigned(Signed(a) - Signed(b) - Count(!carry)))
  }

  // ---------- the macros ----------

  /** ADDFLAGS and ZNFLAGS: flags from the operands and the result. */
  function AddFlags(a: word, b: word, rd: word): Flags {
    Flags(rd >> 31 != 0,
          rd == 0,
          (a & b) & TOPBIT != 0 || (a & !rd) & TOPBIT != 0 || (b & !rd) & TOPBIT != 0,
          (a & b & !rd) & TOPBIT != 0 || (!a & !b & rd) & TOPBIT != 0)
  }

  /** SUBFLAGS and ZNFLAGS. */
  function SubFlags(a: word, b: word, rd: word): Flags {
    Flags(rd >> 31 != 0,
          rd == 0,
          (a & !b) & TOPBIT != 0 || (a & !rd) & TOPBIT != 0 || (!b & !rd) & TOPBIT != 0,
          (a & !b & !rd) & TOPBIT != 0 || (!a & b & rd) & TOPBIT != 0)
  }

  // ---------- exactness ----------

  lemma AddFlagsByTopBits(a: word, b: word, r: word)
    ensures AddFlags(a, b, r)
         == Flags(Negative(r), r == 0,
                  (Negative(a) && Negative(b)) || ((Negative(a) || Negative(b)) && !Negative(r)),
                  Negative(a) == Negative(b) && Negative(a) != Negative(r))
  {
  }

  lemma SubFlagsByTopBits(a: word, b: word, r: word)
    ensures SubFlags(a, b, r)
         == Flags(Negative(r), r == 0,
                  (Negative(a) && !Negative(b)) || ((Negative(a) || !Negative(b)) && !Negative(r)),
                  Negative(a) != Negative(b) && Negative(a) != Negative(r))
  {
  }

  /** How sign and size of the operands decide carry and overflow of a sum. */
  lemma SumBySigns(a: int, b: int, k: int, r: int, na: bool, nb: bool, nr: bool)
    requires 0 <= a < MODULUS && 0 <= b < MODULUS && 0 <= r < MODULUS && 0 <= k <= 1
    requires na == (a >= MODULUS / 2) && nb == (b >= MODULUS / 2) && nr == (r >= MODULUS / 2)
    requires Wraps(a + b + k, r)
    ensures ((na && nb) || ((na || nb) && !nr)) == (a + b + k >= MODULUS)
    ensures (na == nb && na != nr)
         == !FitsSigned((a - if na then MODULUS else 0) + (b - if nb then MODULUS else 0) + k)
  {
  }

  /** The same for a difference. */
  lemma DifferenceBySigns(a: int, b: int, k: int, r: int, na: bool, nb: bool, nr: bool)
    requires 0 <= a < MODULUS && 0 <= b < MODULUS && 0 <= r < MODULUS && 0 <= k <= 1
    requires na == (a >= MODULUS / 2) && nb == (b >= MODULUS / 2) && nr == (r >= MODULUS / 2)
    requires Wraps(r + b + k, a)
    ensures ((na && !nb) || ((na || !nb) && !nr)) == (a >= b + k)
    ensures (na != nb && na != nr)
         == !FitsSigned((a - if na then MODULUS else 0) - (b - if nb then MODULUS else 0) - k)
  {
  }

  lemma SumValue(a: word, b: word, carry: bool)
    ensures Wraps(Unsigned(a) + Unsigned(b) + Count(carry), Unsigned(SumWord(a, b, carry)))
  {
    hide Add, Unsigned, BoolWord;
    AddWraps(a, b);
    AddWraps(Add(a, b), BoolWord(carry));
    BoolWordValue(carry);
    var r, low := SumWord(a, b, carry), Add(a, b);
    NegativeIsLarge(a);
    NegativeIsLarge(b);
    NegativeIsLarge(r);
    NegativeIsLarge(low);
  }

  lemma AddFlagsFromValue(a: word, b: word, carry: bool, r: word)
    requires Wraps(Unsigned(a) + Unsigned(b) + Count(carry), Unsigned(r))
    ensures var f := AddFlags(a, b, r);
            && f.c == (Unsigned(a) + Unsigned(b) + Count(carry) >= MODULUS)
            && f.v == !FitsSigned(Signed(a) + Signed(b) + Count(carry))
  {
    hide AddFlags, SubFlags, Negative, Unsigned;
    AddFlagsByTopBits(a, b, r);
    NegativeIsLarge(a);
    NegativeIsLarge(b);
    NegativeIsLarge(r);
    SumBySigns(Unsigned(a), Unsigned(b), Count(carry), Unsigned(r), Negative(a), Negative(b), Negative(r));
  }

  /** ADDFLAGS is exact for ADD (no carry in) and ADC (carry in). */
  lemma AddFlagsExact(a: word, b: word, carry: bool)
    ensures AddFlags(a, b, SumWord(a, b, carry)) == SumFlags(a, b, carry)
  {
    hide AddFlags, Add, Unsigned, Signed, Negative, FitsSigned, BoolWord;
    var r := SumWord(a, b, carry);
    SumValue(a, b, carry);
    AddFlagsFromValue(a, b, carry, r);
    AddFlagsByTopBits(a, b, r);
  }

  lemma DifferenceValue(a: word, b: word, carry: bool)
    ensures Wraps(Unsigned(DifferenceWord(a, b, carry)) + Unsigned(b) + Count(!carry), Unsigned(a))
  {
    hide Sub, Unsigned, BoolWord;
    SubWraps(a, b);
    SubWraps(Sub(a, b), BoolWord(!carry));
    BoolWordValue(!carry);
    var d, e := DifferenceWord(a, b, carry), Sub(a, b);
    NegativeIsLarge(a);
    NegativeIsLarge(b);
    NegativeIsLarge(d);
    NegativeIsLarge(e);
  }

  lemma SubFlagsFromValue(a: word, b: word, carry: bool, r: word)
    requires Wraps(Unsigned(r) + Unsigned(b) + Count(!carry), Unsigned(a))
    ensures var f := SubFlags(a, b, r);
            && f.c == (Unsigned(a) >= Unsigned(b) + Count(!carry))
            && f.v == !FitsSigned(Signed(a) - Signed(b) - Count(!carry))
  {
    hide AddFlags, SubFlags, Negative, Unsigned;
    SubFlagsByTopBits(a, b, r);
    NegativeIsLarge(a);
    NegativeIsLarge(b);
    NegativeIsLarge(r);
    DifferenceBySigns(Unsigned(a), Unsigned(b), Count(!carry), Unsigned(r), Negative(a), Negative(b), Negative(r));
  }

  /** SUBFLAGS is exact for SUB (carry set), SBC and the reversed forms. */
  lemma SubFlagsExact(a: word, b: word, carry: bool)
    ensures SubFlags(a, b, DifferenceWord(a, b, carry)) == DifferenceFlags(a, b, carry)
  {
    hide SubFlags, Sub, Unsigned, Signed, Negative, FitsSigned, BoolWord;
    var r := DifferenceWord(a, b, carry);
    DifferenceValue(a, b, carry);
    SubFlagsFromValue(a, b, carry, r);
    SubFlagsByTopBits(a, b, r);
  }
}
