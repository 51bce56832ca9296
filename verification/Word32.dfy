/** Thirty-two bit words as integers, and the JavaScript number operators that work on their bit patterns. */
module Word32 {

  type Word = x: int | 0 <= x < 0x1_0000_0000

  function Pow2(n: nat): (p: nat)
    ensures p >= 1
  {
    if n == 0 then 1 else 2 * Pow2(n - 1)
  }

  /** `x` shifted right by `n` binary places, as `n` halvings. */
  function ShiftRight(x: nat, n: nat): (r: nat)
    ensures r <= x
  {
    if n == 0 then x else ShiftRight(x / 2, n - 1)
  }

  /** `x` shifted left by `n` places; what leaves the word is lost. */
  function ShiftLeft(x: Word, n: nat): Word
    decreases n
  {
    if n == 0 then x else ShiftLeft((2 * x) % 0x1_0000_0000, n - 1)
  }

  predicate Bit(x: nat, i: nat) {
    ShiftRight(x, i) % 2 == 1
  }

  /** `x` and `y` combined place by place, by an operation that leaves two zeros zero. */
  function Combine(op: (bool, bool) -> bool, x: nat, y: nat): nat
    decreases x + y
  {
    if x == 0 && y == 0 then 0
    else (if op(x % 2 == 1, y % 2 == 1) then 1 else 0) + 2 * Combine(op, x / 2, y / 2)
  }

  lemma {:induction false} CombineBound(op: (bool, bool) -> bool, x: nat, y: nat, n: nat)
    requires x < Pow2(n) && y < Pow2(n)
    ensures Combine(op, x, y) < Pow2(n)
  {
    if n > 0 {
      CombineBound(op, x / 2, y / 2, n - 1);
    }
  }

  lemma Pow2Of32()
    ensures Pow2(32) == 0x1_0000_0000
  {
    assert Pow2(8) == 256;
    assert Pow2(16) == 0x1_0000;
    assert Pow2(24) == 0x100_0000;
  }

  function CombineWords(op: (bool, bool) -> bool, x: Word, y: Word): Word {
    Pow2Of32();
    CombineBound(op, x, y, 32);
    Combine(op, x, y)
  }

  predicate Both(a: bool, b: bool) { a && b }
  predicate Either(a: bool, b: bool) { a || b }
  predicate Differ(a: bool, b: bool) { a != b }

  function And(x: Word, y: Word): Word { CombineWords(Both, x, y) }
  function Or(x: Word, y: Word): Word { CombineWords(Either, x, y) }
  function Xor(x: Word, y: Word): Word { CombineWords(Differ, x, y) }
  function Not(x: Word): Word { 0x1_0000_0000 - 1 - x }

  // ---- what the operators do to single bits ----

  /** Bit `i` of a combination is the combination of the operands' bits. */
  lemma {:induction false} CombineBit(op: (bool, bool) -> bool, x: nat, y: nat, i: nat)
    requires !op(false, false)
    ensures Bit(Combine(op, x, y), i) == op(Bit(x, i), Bit(y, i))
  {
    if i > 0 {
      CombineBit(op, x / 2, y / 2, i - 1);
    }
    if x == 0 && y == 0 {
      BitOfZero(i);
    } else {
      assert Combine(op, x, y) / 2 == Combine(op, x / 2, y / 2);
    }
  }

  lemma {:induction false} ShiftRightCompose(x: nat, m: nat, n: nat)
    ensures ShiftRight(ShiftRight(x, m), n) == ShiftRight(x, m + n)
  {
    if m > 0 {
      ShiftRightCompose(x / 2, m - 1, n);
    }
  }

  lemma HalveModulo(x: nat, p: nat)
    requires p >= 1
    ensures (x % (2 * p)) / 2 == (x / 2) % p
    ensures (x % (2 * p)) % 2 == x % 2
  {
    var q, r := x / (2 * p), x % (2 * p);
    assert x == 2 * p * q + r;
    var pq := p * q;
    assert x == 2 * pq + r;
    assert x / 2 == pq + r / 2;
    assert 0 <= r / 2 < p;
    DivModUnique(x / 2, p, q, r / 2);
  }

  lemma DivModUnique(x: int, p: nat, q: int, r: nat)
    requires r < p && x == p * q + r
    ensures x / p == q && x % p == r
  {
    var q', r' := x / p, x % p;
    var d := q - q';
    assert p * d == r' - r;
    assert d >= 1 ==> p * d >= p;
    assert d <= -1 ==> p * d <= p * -1;
  }

  lemma {:induction false} BitOfModulo(x: nat, m: nat, i: nat)
    ensures Bit(x % Pow2(m), i) == (i < m && Bit(x, i))
  {
    if m == 0 {
      assert x % 1 == 0;
      BitOfZero(i);
    } else {
      HalveModulo(x, Pow2(m - 1));
      if i > 0 {
        BitOfModulo(x / 2, m - 1, i - 1);
      }
    }
  }

  lemma {:induction false} BitOfZero(i: nat)
    ensures !Bit(0, i)
  {
    if i > 0 {
      BitOfZero(i - 1);
    }
  }

  /** Bit `i` of a left shift by `n` is bit `i - n` of the operand, and zero below `n` or above the word. */
  lemma {:induction false} ShiftLeftBit(x: Word, n: nat, i: nat)
    ensures Bit(ShiftLeft(x, n), i) == (n <= i < 32 && Bit(x, i - n))
    decreases n
  {
    Pow2Of32();
    if n == 0 {
      BitOfModulo(x, 32, i);
    } else {
      ShiftLeftBit((2 * x) % 0x1_0000_0000, n - 1, i);
      if n <= i < 32 {
        BitOfModulo(2 * x, 32, i - n + 1);
      } else if n - 1 <= i < 32 {
        BitOfModulo(2 * x, 32, 0);
      }
    }
  }

  lemma {:induction false} EqualBitsEqualWords(x: nat, y: nat, n: nat)
    requires x < Pow2(n) && y < Pow2(n)
    requires forall i: nat :: i < n ==> Bit(x, i) == Bit(y, i)
    ensures x == y
  {
    if n > 0 {
      assert Bit(x, 0) == Bit(y, 0);
      forall i: nat | i < n - 1
        ensures Bit(x / 2, i) == Bit(y / 2, i)
      {
        assert Bit(x, i + 1) == Bit(y, i + 1);
      }
      EqualBitsEqualWords(x / 2, y / 2, n - 1);
    }
  }

  lemma OrBit(x: Word, y: Word, i: nat)
    ensures Bit(Or(x, y), i) == (Bit(x, i) || Bit(y, i))
  {
    CombineBit(Either, x, y, i);
  }

  lemma {:induction false} ComplementBit(x: nat, n: nat, i: nat)
    requires x < Pow2(n) && i < n
    ensures Bit(Pow2(n) - 1 - x, i) == !Bit(x, i)
  {
    var p := Pow2(n - 1);
    assert (2 * p - 1 - x) / 2 == p - 1 - x / 2 && (2 * p - 1 - x) % 2 != x % 2;
    if i > 0 {
      ComplementBit(x / 2, n - 1, i - 1);
    }
  }

  lemma NotBit(x: Word, i: nat)
    requires i < 32
    ensures Bit(Not(x), i) == !Bit(x, i)
  {
    Pow2Of32();
    ComplementBit(x, 32, i);
  }

  lemma AndBit(x: Word, y: Word, i: nat)
    ensures Bit(And(x, y), i) == (Bit(x, i) && Bit(y, i))
  {
    CombineBit(Both, x, y, i);
  }

  lemma XorBit(x: Word, y: Word, i: nat)
    ensures Bit(Xor(x, y), i) == (Bit(x, i) != Bit(y, i))
  {
    CombineBit(Differ, x, y, i);
  }

  lemma HighBitsClear(x: Word, i: nat)
    requires i >= 32
    ensures !Bit(x, i)
  {
    Pow2Of32();
    BitOfModulo(x, 32, i);
  }

  // ---- JavaScript numbers (ECMA-262, sections 7.1.6, 7.1.7 and 13.9 to 13.12) ----

  /** Integers a double represents exactly together with all their neighbours. */
  const MAX_SAFE: int := 0x1F_FFFF_FFFF_FFFF

  function ToUint32(x: int): Word {
    x % 0x1_0000_0000
  }

  function ToInt32(x: int): (r: int)
    ensures -0x8000_0000 <= r < 0x8000_0000
    ensures ToUint32(r) == ToUint32(x)
  {
    var u := ToUint32(x);
    if u < 0x8000_0000 then u else u - 0x1_0000_0000
  }

  function JsAnd(x: int, y: int): int { ToInt32(And(ToUint32(x), ToUint32(y))) }
  function JsOr(x: int, y: int): int { ToInt32(Or(ToUint32(x), ToUint32(y))) }
  function JsXor(x: int, y: int): int { ToInt32(Xor(ToUint32(x), ToUint32(y))) }
  function JsNot(x: int): int { -ToInt32(x) - 1 }
  function JsShl(x: int, n: int): int { ToInt32(ShiftLeft(ToUint32(x), n % 32)) }
  function JsShrU(x: int, n: int): Word { ShiftRight(ToUint32(x), n % 32) }

  /** Addition of doubles; exact because the operands and the sum are safe integers. */
  function JsAdd(x: int, y: int): int
    requires -MAX_SAFE <= x <= MAX_SAFE && -MAX_SAFE <= y <= MAX_SAFE
    requires -MAX_SAFE <= x + y <= MAX_SAFE
  {
    x + y
  }

  lemma NotPattern(x: int)
    ensures ToUint32(JsNot(x)) == Not(ToUint32(x))
  {
  }

  /** `x & ~63`, for the lengths that fit a word, clears the six low bits. */
  lemma ClearLowSix(x: Word)
    ensures And(x, 0x1_0000_0000 - 64) == x / 64 * 64
  {
    AndEven(x, 0x7FFF_FFE0);
    AndEven(x / 2, 0x3FFF_FFF0);
    AndEven(x / 4, 0x1FFF_FFF8);
    AndEven(x / 8, 0xFFF_FFFC);
    AndEven(x / 16, 0x7FF_FFFE);
    AndEven(x / 32, 0x3FF_FFFF);
    Pow2Of26();
    AndOnes(x / 64, 26);
  }

  lemma Pow2Of26()
    ensures Pow2(26) == 0x400_0000
  {
    assert Pow2(8) == 256;
    assert Pow2(16) == 0x1_0000;
    assert Pow2(24) == 0x100_0000;
  }

  lemma AndEven(x: nat, y: nat)
    ensures Combine(Both, x, 2 * y) == 2 * Combine(Both, x / 2, y)
  {
    assert (2 * y) / 2 == y;
  }

  lemma {:induction false} AndOnes(x: nat, n: nat)
    requires x < Pow2(n)
    ensures Combine(Both, x, Pow2(n) - 1) == x
  {
    if n > 0 {
      AndOdd(x, Pow2(n - 1) - 1);
      HalfBelow(x, Pow2(n - 1));
      hide Combine;
      AndOnes(x / 2, n - 1);
    }
  }

  lemma HalfBelow(x: nat, p: nat)
    requires x < 2 * p
    ensures x / 2 < p && x == x % 2 + 2 * (x / 2)
  {
  }

  lemma AndOdd(x: nat, y: nat)
    ensures Combine(Both, x, 2 * y + 1) == x % 2 + 2 * Combine(Both, x / 2, y)
  {
    assert (2 * y + 1) / 2 == y && (2 * y + 1) % 2 == 1;
  }
}
