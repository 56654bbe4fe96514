/**
 Multi-word arithmetic as ARM code does it: ADDS on the lowest words, then ADCS up the
 number, and SUBS followed by SBCS.  Whatever the length, the chain computes the exact
 sum or difference, and the flags of its last instruction describe the whole number.
 */
module MultiWord {
  import opened Words
  import opened Alu
  import opened Arm

  // ---------- numbers of several words, lowest word first ----------

  function Weight(n: nat): (w: nat)
    ensures w > 0
  {
    if n == 0 then 1 else MODULUS * Weight(n - 1)
  }

  function Value(xs: seq<word>): nat {
    if xs == [] then 0
    else Value(xs[..|xs| - 1]) + Unsigned(xs[|xs| - 1]) * Weight(|xs| - 1)
  }

  /** The two's-complement value: the top word carries the sign. */
  function SignedValue(xs: seq<word>): int
    requires xs != []
  {
    Value(xs[..|xs| - 1]) + Signed(xs[|xs| - 1]) * Weight(|xs| - 1)
  }

  // ---------- the chains ----------

  /** The words and final flags of a chain: `first` on the lowest words, then `rest`. */
  function Chain(first: DpOp, rest: DpOp, xs: seq<word>, ys: seq<word>): (r: (seq<word>, Flags))
    requires |xs| == |ys| && xs != []
    requires !IsLogic(first) && !IsLogic(rest)
    ensures |r.0| == |xs|
  {
    var n := |xs| - 1;
    if n == 0 then
      var out := ArithmeticOutcome(first, xs[0], ys[0], false);
      ([out.value], out.f)
    else
      var (words, f) := Chain(first, rest, xs[..n], ys[..n]);
      var out := ArithmeticOutcome(rest, xs[n], ys[n], f.c);
      (words + [out.value], out.f)
  }

  function AddChain(xs: seq<word>, ys: seq<word>): (r: (seq<word>, Flags))
    requires |xs| == |ys| && xs != []
    ensures |r.0| == |xs|
  {
    Chain(ADD, ADC, xs, ys)
  }

  function SubChain(xs: seq<word>, ys: seq<word>): (r: (seq<word>, Flags))
    requires |xs| == |ys| && xs != []
    ensures |r.0| == |xs|
  {
    Chain(SUB, SBC, xs, ys)
  }

  // ---------- arithmetic of one more word ----------

  lemma {:induction false} ValueFits(xs: seq<word>)
    ensures Value(xs) < Weight(|xs|)
  {
    hide Unsigned;
    if xs != [] {
      var n := |xs| - 1;
      ValueFits(xs[..n]);
      NegativeIsLarge(xs[n]);
      DigitFits(Value(xs[..n]), Unsigned(xs[n]), Weight(n));
    }
  }

  lemma Scales(x: int, y: int, w: nat)
    requires x <= y
    ensures x * w <= y * w
  {
  }

  lemma DigitFits(low: nat, digit: nat, w: nat)
    requires low < w && digit < MODULUS
    ensures low + digit * w < MODULUS * w
  {
    Scales(digit, MODULUS - 1, w);
  }

  lemma AppendValue(words: seq<word>, top: word)
    ensures Value(words + [top]) == Value(words) + Unsigned(top) * Weight(|words|)
  {
    hide Unsigned;
    var all := words + [top];
    assert all[..|all| - 1] == words;
  }

  lemma EmptyValue(xs: seq<word>, ys: seq<word>)
    requires xs == [] && ys == []
    ensures Value(xs) == 0 == Value(ys) && Weight(0) == 1
  {
  }

  /** The value of a number with its sign read from the top word. */
  lemma SignedFits(low: nat, top: int, w: nat)
    requires low < w
    ensures FitsSigned(top) <==> -(MODULUS / 2 * w) <= low + top * w < MODULUS / 2 * w
  {
    if top >= MODULUS / 2 {
      Scales(MODULUS / 2, top, w);
    } else if top < -MODULUS / 2 {
      Scales(top, -MODULUS / 2 - 1, w);
    } else {
      Scales(top, MODULUS / 2 - 1, w);
      Scales(-MODULUS / 2, top, w);
    }
  }

  /** Adding the top words to an exact lower sum (or difference). */
  lemma SignedTotal(low: int, c: bool, w: nat, x: int, y: int, sx: int, sy: int)
    ensures low + (if c then w else 0) == x + y
        ==> (x + sx * w) + (y + sy * w) == low + (sx + sy + Count(c)) * w
    ensures low - (if c then 0 else w) == x - y
        ==> (x + sx * w) - (y + sy * w) == low + (sx - sy - Count(!c)) * w
  {
    assert (sx + sy + Count(c)) * w == sx * w + sy * w + Count(c) * w;
    assert (sx - sy - Count(!c)) * w == sx * w - sy * w - Count(!c) * w;
  }

  // ---------- sums ----------

  lemma SumStep(x: nat, y: nat, carry: bool, r: nat, c: bool, w: nat)
    requires x + y + Count(carry) == r + (if c then MODULUS else 0)
    ensures x * w + y * w + (if carry then w else 0) == r * w + (if c then MODULUS * w else 0)
  {
    assert (x + y + Count(carry)) * w == (r + (if c then MODULUS else 0)) * w;
  }

  /** One ADC: the carry flag completes the exact sum. */
  lemma SumWithCarry(a: word, b: word, carry: bool)
    ensures Unsigned(a) + Unsigned(b) + Count(carry)
         == Unsigned(SumWord(a, b, carry)) + (if SumFlags(a, b, carry).c then MODULUS else 0)
  {
    hide Unsigned, SumWord, Signed, Negative;
    SumValue(a, b, carry);
    NegativeIsLarge(SumWord(a, b, carry));
  }

  /** An ADDS/ADCS chain of any length: words and carry are the exact sum. */
  lemma {:induction false} AddChainExact(xs: seq<word>, ys: seq<word>)
    requires |xs| == |ys| && xs != []
    ensures var (words, f) := AddChain(xs, ys);
            Value(words) + (if f.c then Weight(|xs|) else 0) == Value(xs) + Value(ys)
  {
    hide SumWord, SumFlags, Unsigned;
    var n := |xs| - 1;
    var (words, f) := AddChain(xs, ys);
    if n == 0 {
      SumWithCarry(xs[0], ys[0], false);
      AppendValue([], words[0]);
      assert words == [] + [words[0]];
    } else {
      var (low, lf) := AddChain(xs[..n], ys[..n]);
      AddChainExact(xs[..n], ys[..n]);
      SumWithCarry(xs[n], ys[n], lf.c);
      AppendValue(low, words[n]);
      SumStep(Unsigned(xs[n]), Unsigned(ys[n]), lf.c, Unsigned(words[n]), f.c, Weight(n));
    }
  }

  lemma AddChainTop(xs: seq<word>, ys: seq<word>)
    requires |xs| == |ys| && xs != []
    ensures var n := |xs| - 1;
            AddChain(xs, ys).1
            == SumFlags(xs[n], ys[n], if n == 0 then false else AddChain(xs[..n], ys[..n]).1.c)
  {
    hide SumWord, DifferenceWord, SumFlags, DifferenceFlags;
  }

  /** Its overflow flag says exactly whether the signed sum fits as many words. */
  lemma AddChainOverflow(xs: seq<word>, ys: seq<word>)
    requires |xs| == |ys| && xs != []
    ensures AddChain(xs, ys).1.v <==>
            !(-(MODULUS / 2 * Weight(|xs| - 1)) <= SignedValue(xs) + SignedValue(ys)
              < MODULUS / 2 * Weight(|xs| - 1))
  {
    hide AddChain, SumWord, DifferenceWord, Unsigned, Signed, FitsSigned, Negative, Value, Weight;
    var n := |xs| - 1;
    var w := Weight(n);
    AddChainTop(xs, ys);
    if n == 0 {
      EmptyValue(xs[..0], ys[..0]);
      SignedFits(0, Signed(xs[0]) + Signed(ys[0]), w);
    } else {
      var (low, lf) := AddChain(xs[..n], ys[..n]);
      AddChainExact(xs[..n], ys[..n]);
      ValueFits(low);
      SignedFits(Value(low), Signed(xs[n]) + Signed(ys[n]) + Count(lf.c), w);
      SignedTotal(Value(low), lf.c, w, Value(xs[..n]), Value(ys[..n]), Signed(xs[n]), Signed(ys[n]));
    }
  }

  // ---------- differences ----------

  lemma DifferenceStep(x: nat, y: nat, carry: bool, r: nat, c: bool, w: nat)
    requires x - y - Count(!carry) == r - (if c then 0 else MODULUS)
    ensures x * w - y * w - (if carry then 0 else w) == r * w - (if c then 0 else MODULUS * w)
  {
    assert (x - y - Count(!carry)) * w == (r - (if c then 0 else MODULUS)) * w;
  }

  lemma DifferenceWithBorrow(a: word, b: word, carry: bool)
    ensures Unsigned(a) - Unsigned(b) - Count(!carry)
         == Unsigned(DifferenceWord(a, b, carry)) - (if DifferenceFlags(a, b, carry).c then 0 else MODULUS)
  {
    hide Unsigned, DifferenceWord, Signed, Negative;
    DifferenceValue(a, b, carry);
    NegativeIsLarge(DifferenceWord(a, b, carry));
    NegativeIsLarge(a);
  }

  /** A SUBS/SBCS chain of any length: words and borrow are the exact difference. */
  lemma {:induction false} SubChainExact(xs: seq<word>, ys: seq<word>)
    requires |xs| == |ys| && xs != []
    ensures var (words, f) := SubChain(xs, ys);
            Value(words) - (if f.c then 0 else Weight(|xs|)) == Value(xs) - Value(ys)
  {
    hide DifferenceWord, DifferenceFlags, Unsigned;
    var n := |xs| - 1;
    var (words, f) := SubChain(xs, ys);
    if n == 0 {
      DifferenceWithBorrow(xs[0], ys[0], true);
      AppendValue([], words[0]);
      assert words == [] + [words[0]];
    } else {
      var (low, lf) := SubChain(xs[..n], ys[..n]);
      SubChainExact(xs[..n], ys[..n]);
      DifferenceWithBorrow(xs[n], ys[n], lf.c);
      AppendValue(low, words[n]);
      DifferenceStep(Unsigned(xs[n]), Unsigned(ys[n]), lf.c, Unsigned(words[n]), f.c, Weight(n));
    }
  }

  lemma SubChainTop(xs: seq<word>, ys: seq<word>)
    requires |xs| == |ys| && xs != []
    ensures var n := |xs| - 1;
            SubChain(xs, ys).1
            == DifferenceFlags(xs[n], ys[n], if n == 0 then true else SubChain(xs[..n], ys[..n]).1.c)
  {
    hide SumWord, DifferenceWord, SumFlags, DifferenceFlags;
  }

  lemma SubChainOverflow(xs: seq<word>, ys: seq<word>)
    requires |xs| == |ys| && xs != []
    ensures SubChain(xs, ys).1.v <==>
            !(-(MODULUS / 2 * Weight(|xs| - 1)) <= SignedValue(xs) - SignedValue(ys)
              < MODULUS / 2 * Weight(|xs| - 1))
  {
    hide SubChain, SumWord, DifferenceWord, Unsigned, Signed, FitsSigned, Negative, Value, Weight;
    var n := |xs| - 1;
    var w := Weight(n);
    SubChainTop(xs, ys);
    if n == 0 {
      EmptyValue(xs[..0], ys[..0]);
      SignedFits(0, Signed(xs[0]) - Signed(ys[0]), w);
    } else {
      var (low, lf) := SubChain(xs[..n], ys[..n]);
      SubChainExact(xs[..n], ys[..n]);
      ValueFits(low);
      SignedFits(Value(low), Signed(xs[n]) - Signed(ys[n]) - Count(!lf.c), w);
      SignedTotal(Value(low), lf.c, w, Value(xs[..n]), Value(ys[..n]), Signed(xs[n]), Signed(ys[n]));
    }
  }
}
