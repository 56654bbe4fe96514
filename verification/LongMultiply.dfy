/**
 Long multiplication (exec_mull, core/execute.inc.c).  Registers are numbers below 2^32;
 the source widens both operands without sign, for the signed instructions too.
 */
module LongMultiply {

  const M := 0x1_0000_0000

  /** A register read as a two's-complement number. */
  function Signed(x: nat): int {
    if x >= M / 2 then x - M else x
  }

  /** The 64-bit result, given as its low and high words. */
  function Halves(v: int): (int, int) {
    (v % M, v / M % M)
  }

  /** exec_mull: SMULL, UMULL and, with what the result registers held, SMLAL and UMLAL. */
  function Mull(accumulate: bool, a: nat, b: nat, lo: nat, hi: nat): (int, int) {
    Halves(a * b + if accumulate then hi * M + lo else 0)
  }

  /** The architecture's signed result. */
  function SignedMull(accumulate: bool, a: nat, b: nat, lo: nat, hi: nat): (int, int) {
    Halves(Signed(a) * Signed(b) + if accumulate then hi * M + lo else 0)
  }

  /** The signed product differs from the unsigned one by a multiple of 2^32. */
  lemma ProductsDiffer(a: nat, b: nat)
    requires a < M && b < M
    ensures Signed(a) * Signed(b) == a * b - M * Excess(a, b)
  {
    var x, y := if a >= M / 2 then 1 else 0, if b >= M / 2 then 1 else 0;
    assert Signed(a) == a - M * x && Signed(b) == b - M * y;
    assert (a - M * x) * (b - M * y) == a * b - M * (x * b) - M * (y * a) + M * M * (x * y) by {
      Expand(a, b, x, y);
    }
    assert M * (x * b) + M * (y * a) - M * M * (x * y) == M * (x * b + y * a - M * (x * y));
  }

  lemma Expand(a: int, b: int, x: int, y: int)
    ensures (a - M * x) * (b - M * y) == a * b - M * (x * b) - M * (y * a) + M * M * (x * y)
  {
    assert (a - M * x) * (b - M * y) == a * (b - M * y) - M * x * (b - M * y);
    assert a * (b - M * y) == a * b - M * (y * a);
    assert M * x * (b - M * y) == M * (x * b) - M * M * (x * y);
  }

  /** What reading negative operands without sign adds, in units of 2^32. */
  function Excess(a: nat, b: nat): int {
    (if a >= M / 2 then b else 0) + (if b >= M / 2 then a else 0) - if a >= M / 2 && b >= M / 2 then M else 0
  }

  lemma SameHalves(v: int, w: int, k: int)
    requires w == v - M * k
    ensures Halves(v) == Halves(w) <==> k % M == 0
  {
    var lo, hi := v % M, v / M;
    assert w == M * (hi - k) + lo;
    assert w % M == lo && w / M == hi - k;
    if k % M == 0 {
      var j := k / M;
      assert hi - k == hi - M * j;
    }
  }

  /** The excess is a whole multiple of 2^32 only in the cases below. */
  lemma ExcessVanishesExactly(a: nat, b: nat)
    requires a < M && b < M
    ensures Excess(a, b) % M == 0
       <==> || (Signed(a) >= 0 && Signed(b) >= 0)
            || a == 0 || b == 0
            || (Signed(a) < 0 && Signed(b) < 0 && a + b == M)
  {
    var e := Excess(a, b);
    assert 0 <= e < M;
  }

  /**
   The signed instructions are right exactly when neither operand is negative, the other
   one is zero, or both are negative and together make 2^32.
   */
  lemma SignedMultiplyExactly(accumulate: bool, a: nat, b: nat, lo: nat, hi: nat)
    requires a < M && b < M && lo < M && hi < M
    ensures Mull(accumulate, a, b, lo, hi) == SignedMull(accumulate, a, b, lo, hi)
       <==> || (Signed(a) >= 0 && Signed(b) >= 0)
            || a == 0 || b == 0
            || (Signed(a) < 0 && Signed(b) < 0 && a + b == M)
  {
    hide Halves, Excess, Signed;
    var add := if accumulate then hi * M + lo else 0;
    ExcessVanishesExactly(a, b);
    ProductsDiffer(a, b);
    SameHalves(a * b + add, Signed(a) * Signed(b) + add, Excess(a, b));
  }
}
