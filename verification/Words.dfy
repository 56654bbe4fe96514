/**
 The 32-bit machine word (`uint5` in the emulator), the shifts and rotations built
 on it, and the number a word stands for.
 */
module Words {

  type word = bv32

  const TOPBIT: word := 0x8000_0000

  /** Bit `k` of `x`. */
  predicate Bit(x: word, k: word)
    requires k < 32
  {
    (x >> k) & 1 == 1
  }

  predicate Negative(x: word) {
    Bit(x, 31)
  }

  function BoolWord(b: bool): word {
    if b then 1 else 0
  }

  function And(x: word, y: word): word { x & y }

  function Orr(x: word, y: word): word { x | y }

  function Eor(x: word, y: word): word { x ^ y }

  function Not(x: word): word { !x }

  /** Multiplication keeps the low 32 bits. */
  function Times(x: word, y: word): word { x * y }

  function Lsl(x: word, k: word): word
    requires k < 32
  {
    x << k
  }

  function Lsr(x: word, k: word): word
    requires k < 32
  {
    x >> k
  }

  /** Arithmetic shift right: copies of the sign bit come in at the top. */
  function Asr(x: word, k: word): word
    requires k < 32
  {
    if Negative(x) then !(!x >> k) else x >> k
  }

  /** The ROR macro.  A rotation by zero leaves the word unchanged. */
  function Ror(x: word, k: word): word
    requires k < 32
  {
    if k == 0 then x else (x >> k) | (x << (32 - k))
  }

  /** Rotate right by one through the carry. */
  function Rrx(x: word, carry: bool): word {
    (x >> 1) | (BoolWord(carry) << 31)
  }

  // ---------- words as numbers ----------

  const MODULUS := 0x1_0000_0000

  /** A word read as an unsigned number. */
  function Unsigned(x: word): nat {
    x as int
  }

  /** A word read as a two's-complement number. */
  function Signed(x: word): int {
    Unsigned(x) - if Negative(x) then MODULUS else 0
  }

  lemma NegativeIsLarge(x: word)
    ensures Negative(x) <==> Unsigned(x) >= MODULUS / 2
    ensures Unsigned(x) < MODULUS
  {
  }

  /** Wrapping addition: the low 32 bits of the sum taken one bit wider. */
  function Add(a: word, b: word): word {
    (((a as bv33) + (b as bv33)) & 0xffff_ffff) as word
  }

  /** Wrapping subtraction. */
  function Sub(a: word, b: word): word {
    a - b
  }

  lemma AddUndoesSub(a: word, b: word)
    ensures Add(a - b, b) == a
  {
  }

  lemma WideValue(a: word, b: word)
    ensures ((a as bv33) + (b as bv33)) as int == a as int + b as int
  {
  }

  lemma LowWordValue(w: bv33)
    ensures ((w & 0xffff_ffff) as word) as int + (if w >= 0x1_0000_0000 then MODULUS else 0) == w as int
  {
  }

  /** `wrapped` is `exact`, or one 2^32 too small. */
  ghost predicate Wraps(exact: int, wrapped: int) {
    exact == wrapped || exact == wrapped + MODULUS
  }

  /** Wrapping addition on words is addition of their values, less at most one 2^32. */
  lemma AddWraps(a: word, b: word)
    ensures Wraps(Unsigned(a) + Unsigned(b), Unsigned(Add(a, b)))
  {
    WideValue(a, b);
    LowWordValue((a as bv33) + (b as bv33));
  }

  lemma RawSubWraps(a: word, b: word)
    ensures Wraps(Unsigned(a - b) + Unsigned(b), Unsigned(a))
  {
    hide Add, Unsigned;
    AddUndoesSub(a, b);
    AddWraps(a - b, b);
  }

  /** The same for subtraction. */
  lemma SubWraps(a: word, b: word)
    ensures Wraps(Unsigned(Sub(a, b)) + Unsigned(b), Unsigned(a))
  {
    hide Unsigned;
    RawSubWraps(a, b);
  }

  lemma BoolWordValue(b: bool)
    ensures Unsigned(BoolWord(b)) == if b then 1 else 0
  {
  }

  lemma SmallValues()
    ensures Unsigned(0) == 0 && Unsigned(1) == 1 && Unsigned(4) == 4
  {
  }

  lemma ZeroValue(x: word)
    requires Unsigned(x) == 0
    ensures x == 0
  {
  }

  lemma NoDifference(a: word, b: word)
    requires Sub(a, b) == 0
    ensures a == b
  {
  }

  /** Words with one value are one word. */
  lemma SameValue(a: word, b: word)
    requires Unsigned(a) == Unsigned(b)
    ensures a == b
  {
    hide Unsigned, Sub;
    SubWraps(a, b);
    NegativeIsLarge(Sub(a, b));
    NegativeIsLarge(b);
    ZeroValue(Sub(a, b));
    NoDifference(a, b);
  }

  lemma NextValue(w: word)
    requires Unsigned(w) + 1 < MODULUS
    ensures Unsigned(Add(w, 1)) == Unsigned(w) + 1
  {
    hide Unsigned, Add;
    AddWraps(w, 1);
    SmallValues();
    NegativeIsLarge(Add(w, 1));
  }

  /** The word with a given value. */
  ghost function WordFor(n: nat): (w: word)
    requires n < MODULUS
    ensures Unsigned(w) == n
  {
    hide Unsigned, Add;
    SmallValues();
    if n == 0 then 0
    else
      var w := WordFor(n - 1);
      NextValue(w);
      Add(w, 1)
  }

  // ---------- bit by bit ----------

  lemma BitBelow(x: word, k: word)
    requires 0 < k < 32
    ensures Bit(x, k) <==> Bit(x >> 1, k - 1)
  {
  }

  lemma EorLowest(x: word, y: word)
    ensures (x ^ y) & 1 == 1 <==> (x & 1 == 1) != (y & 1 == 1)
  {
  }

  lemma EorLow(x: word, y: word)
    ensures Bit(Eor(x, y), 0) <==> Bit(x, 0) != Bit(y, 0)
  {
    EorLowest(x, y);
    ShiftNothing(x);
    ShiftNothing(y);
    ShiftNothing(x ^ y);
  }

  lemma ShiftNothing(x: word)
    ensures x >> 0 == x
  {
  }

  lemma EorShifted(x: word, y: word)
    ensures (x ^ y) >> 1 == (x >> 1) ^ (y >> 1)
  {
  }

  lemma EorHalf(x: word, y: word)
    ensures Eor(x, y) >> 1 == Eor(x >> 1, y >> 1)
  {
    calc {
      Eor(x, y) >> 1;
      (x ^ y) >> 1;
      { EorShifted(x, y); }
      (x >> 1) ^ (y >> 1);
      Eor(x >> 1, y >> 1);
    }
  }

  /** Exclusive or, bit by bit. */
  lemma {:induction false} EorBits(x: word, y: word, k: word)
    requires k < 32
    ensures Bit(Eor(x, y), k) <==> Bit(x, k) != Bit(y, k)
    decreases k
  {
    hide Bit, Eor;
    if k == 0 {
      EorLow(x, y);
    } else {
      BitBelow(x, k);
      BitBelow(y, k);
      BitBelow(Eor(x, y), k);
      EorHalf(x, y);
      EorBits(x >> 1, y >> 1, k - 1);
    }
  }

  lemma AndBits(x: word, y: word, k: word)
    requires k < 32
    ensures Bit(And(x, y), k) <==> Bit(x, k) && Bit(y, k)
  {
  }

  lemma OrrBits(x: word, y: word, k: word)
    requires k < 32
    ensures Bit(Orr(x, y), k) <==> Bit(x, k) || Bit(y, k)
  {
  }

  lemma NotBits(x: word, k: word)
    requires k < 32
    ensures Bit(Not(x), k) <==> !Bit(x, k)
  {
  }

  lemma UpOne(x: word, k: word)
    requires k < 32
    ensures Bit(x << 1, k) <==> k > 0 && Bit(x, k - 1)
  {
  }

  lemma DownOne(x: word, k: word)
    requires k < 32
    ensures Bit(x >> 1, k) <==> k < 31 && Bit(x, k + 1)
  {
  }

  lemma LslMore(x: word, n: word)
    requires 0 < n < 32
    ensures Lsl(x, n) == Lsl(x, n - 1) << 1
  {
  }

  lemma LsrMore(x: word, n: word)
    requires 0 < n < 32
    ensures Lsr(x, n) == Lsr(x, n - 1) >> 1
  {
  }

  lemma NoShift(x: word)
    ensures Lsl(x, 0) == x && Lsr(x, 0) == x
  {
  }

  /** A shift moves each bit. */
  lemma {:induction false} LslBits(x: word, n: word, k: word)
    requires n < 32 && k < 32
    ensures Bit(Lsl(x, n), k) <==> k >= n && Bit(x, k - n)
    decreases n
  {
    hide Bit, Lsl, Lsr;
    NoShift(x);
    if n > 0 {
      LslMore(x, n);
      UpOne(Lsl(x, n - 1), k);
      if k > 0 { LslBits(x, n - 1, k - 1); }
    }
  }

  lemma {:induction false} LsrBits(x: word, n: word, k: word)
    requires n < 32 && k < 32
    ensures Bit(Lsr(x, n), k) <==> k + n < 32 && Bit(x, k + n)
    decreases n
  {
    hide Bit, Lsl, Lsr;
    NoShift(x);
    if n > 0 {
      LsrMore(x, n);
      DownOne(Lsr(x, n - 1), k);
      if k < 31 { LsrBits(x, n - 1, k + 1); }
    }
  }

  /** An arithmetic one fills up with the sign. */
  lemma AsrBits(x: word, n: word, k: word)
    requires n < 32 && k < 32
    ensures Bit(Asr(x, n), k) <==> Bit(x, if k + n < 32 then k + n else 31)
  {
    hide *;
    AsrParts(x, n);
    LsrBits(x, n, k);
    LsrBits(Not(x), n, k);
    NotBits(Lsr(Not(x), n), k);
    if k + n < 32 { NotBits(x, k + n); }
  }

  lemma AsrParts(x: word, n: word)
    requires n < 32
    ensures Asr(x, n) == if Bit(x, 31) then Not(Lsr(Not(x), n)) else Lsr(x, n)
  {
    hide Bit;
    if Negative(x) {
      assert Asr(x, n) == !((!x) >> n);
    } else {
      assert Asr(x, n) == x >> n;
    }
  }

  /** Where bit `k` of a rotation by `n` comes from. */
  lemma Round(n: word, k: word)
    requires 0 < n < 32 && k < 32
    ensures k + n < 32 <==> k < 32 - n
    ensures k + n >= 32 ==> k - (32 - n) == k + n - 32 < 32
  {
  }

  /** A rotation brings what leaves below in above. */
  lemma RorBits(x: word, n: word, k: word)
    requires n < 32 && k < 32
    ensures Bit(Ror(x, n), k) <==> Bit(x, if k + n < 32 then k + n else k + n - 32)
  {
    hide Bit, Lsl, Lsr, Orr;
    if n > 0 {
      hide Ror;
      RorParts(x, n);
      OrrBits(Lsr(x, n), Lsl(x, 32 - n), k);
      LsrBits(x, n, k);
      LslBits(x, 32 - n, k);
      Round(n, k);
    }
  }

  lemma RorParts(x: word, n: word)
    requires 0 < n < 32
    ensures Ror(x, n) == Orr(Lsr(x, n), Lsl(x, 32 - n))
  {
  }

  lemma RrxBits(x: word, carry: bool, k: word)
    requires k < 32
    ensures Bit(Rrx(x, carry), k) <==> if k == 31 then carry else Bit(x, k + 1)
  {
  }

  lemma ZeroBits(k: word)
    requires k < 32
    ensures !Bit(0, k)
  {
  }

  lemma UpperHalf(x: word)
    requires x != 0 && !Bit(x, 0)
    ensures 0 != x >> 1 < x
  {
  }

  lemma BitAbove(x: word, k: word)
    requires k < 32 && Bit(x >> 1, k)
    ensures k < 31 && Bit(x, k + 1)
  {
    hide Bit;
    DownOne(x, k);
  }

  /** A word other than zero has a bit set. */
  lemma {:induction false} SomeBit(x: word) returns (k: word)
    requires x != 0
    ensures k < 32 && Bit(x, k)
    decreases x
  {
    hide Bit;
    if Bit(x, 0) {
      k := 0;
    } else {
      UpperHalf(x);
      k := SomeBit(x >> 1);
      BitAbove(x, k);
      k := k + 1;
    }
  }

  // ---------- products ----------

  /** Addition as the solver knows it. */
  ghost function Plus(x: word, y: word): word { x + y }

  lemma AddIsPlus(x: word, y: word)
    ensures Add(x, y) == Plus(x, y)
  {
  }

  lemma TimesUp(x: word, y: word)
    ensures Times(x, y + 1) == x * y + x
  {
  }

  lemma TimesIs(x: word, y: word)
    ensures Times(x, y) == x * y
  {
  }

  lemma TimesMore(x: word, y: word)
    ensures Times(x, Plus(y, 1)) == Plus(Times(x, y), x)
  {
    hide Times;
    calc {
      Times(x, Plus(y, 1));
      Times(x, y + 1);
      { TimesUp(x, y); }
      x * y + x;
      { TimesIs(x, y); }
      Times(x, y) + x;
      Plus(Times(x, y), x);
    }
  }

  lemma TimesNothing(x: word)
    ensures Times(x, 0) == 0
  {
  }

  lemma TimesNext(x: word, y: word)
    ensures Times(x, Add(y, 1)) == Add(Times(x, y), x)
  {
    hide *;
    AddIsPlus(y, 1);
    TimesMore(x, y);
    AddIsPlus(Times(x, y), x);
  }

  lemma NextMultiple(u: nat, n: nat, p: nat, sum: nat)
    requires n > 0 && u < MODULUS && sum < MODULUS
    requires p == u * (n - 1) % MODULUS && Wraps(p + u, sum)
    ensures sum == u * n % MODULUS
  {
    var before := u * (n - 1);
    assert u * n == before + u;
    assert before == MODULUS * (before / MODULUS) + p;
    assert u * n == MODULUS * (before / MODULUS) + (p + u);
  }

  lemma {:induction false} TimesNumber(x: word, n: nat)
    requires n < MODULUS
    ensures Unsigned(Times(x, WordFor(n))) == Unsigned(x) * n % MODULUS
    decreases n
  {
    SmallValues();
    hide Unsigned, Add, Times, WordFor, Wraps;
    if n == 0 {
      TimesNothing(x);
      SameValue(WordFor(0), 0);
    } else {
      var y := WordFor(n - 1);
      NextValue(y);
      SameValue(WordFor(n), Add(y, 1));
      TimesNext(x, y);
      TimesNumber(x, n - 1);
      AddWraps(Times(x, y), x);
      NegativeIsLarge(x);
      NegativeIsLarge(Add(Times(x, y), x));
      NextMultiple(Unsigned(x), n, Unsigned(Times(x, y)), Unsigned(Add(Times(x, y), x)));
    }
  }

  /** A product is the product of the values, modulo 2^32. */
  lemma TimesValue(x: word, y: word)
    ensures Unsigned(Times(x, y)) == Unsigned(x) * Unsigned(y) % MODULUS
  {
    hide Unsigned, Times;
    NegativeIsLarge(y);
    SameValue(WordFor(Unsigned(y)), y);
    TimesNumber(x, Unsigned(y));
  }
}
