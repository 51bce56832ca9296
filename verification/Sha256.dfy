/** The hand-written hash of packages/contracts/src/sha256.ts, in JavaScript number terms. */
module Sha256 {
  import opened Word32
  import opened Fips180

  datatype Outcome = Digest(bytes: seq<Byte>) | RangeError

  function Rotr(x: int, n: int): int {
    JsOr(JsShrU(x, n), JsShl(x, 32 - n))
  }

  /** `rotr` returns a signed number whose 32-bit pattern is ROTR of the operand's pattern. */
  lemma RotrPattern(x: int, n: nat)
    requires 0 < n < 32
    ensures ToUint32(Rotr(x, n)) == ROTR(n, ToUint32(x))
  {
    hide Or, ShiftLeft, ShiftRight;
  }

  // ---- padding ----

  /** The allocated length; for lengths near `0x1_0000_0000` the sum wraps. */
  function PaddedLength(n: nat): Word
    requires n + 72 <= MAX_SAFE
  {
    JsShrU(JsAnd(JsAdd(JsAdd(n, 9), 63), JsNot(63)), 0)
  }

  lemma PaddedLengthClears(n: nat)
    requires n + 72 <= MAX_SAFE
    ensures PaddedLength(n) == ToUint32(n + 72) / 64 * 64
  {
    ClearLowSix(ToUint32(n + 72));
    NotPattern(63);
    hide And;
  }

  lemma WrapLowers(x: nat)
    ensures x < 0x1_0000_0000 ==> ToUint32(x) == x
    ensures x >= 0x1_0000_0000 ==> ToUint32(x) <= x - 0x1_0000_0000
  {
  }

  /** `n + 72 < 2^32` is exactly when the buffer holds the message; then it is the least multiple of 64 with room. */
  lemma PaddedLengthIsLeast(n: nat, m: int)
    requires n + 72 <= MAX_SAFE
    ensures n <= PaddedLength(n) <==> n + 72 < 0x1_0000_0000
    ensures n + 72 < 0x1_0000_0000 ==> PaddedLength(n) % 64 == 0 && n + 9 <= PaddedLength(n)
    ensures n + 72 < 0x1_0000_0000 && n + 9 <= 64 * m ==> PaddedLength(n) <= 64 * m
  {
    PaddedLengthClears(n);
    WrapLowers(n + 72);
    RoundDown(ToUint32(n + 72));
    hide *;
    LeastMultiple(n, ToUint32(n + 72) / 64, PaddedLength(n), m);
  }

  lemma RoundDown(x: nat)
    ensures x / 64 * 64 == 64 * (x / 64) <= x < 64 * (x / 64) + 64
    ensures (64 * (x / 64)) % 64 == 0
  {
  }

  lemma LeastMultiple(n: nat, k: nat, p: nat, m: int)
    requires p == 64 * k && (64 * k <= n + 72 - 0x1_0000_0000 || 64 * k <= n + 72 < 64 * k + 64)
    ensures n <= p <==> !(64 * k <= n + 72 - 0x1_0000_0000)
    ensures 64 * k <= n + 72 < 64 * k + 64 ==> n + 9 <= p && (n + 9 <= 64 * m ==> p <= 64 * m)
  {
  }

  /** What the buffer holds: like `Pad`, but with a zero high length word. */
  function PaddedByCode(message: seq<Byte>): seq<Byte> {
    message + [0x80] + Zeros((55 - |message|) % 64) + Zeros(4) + BigEndian(8 * |message| % 0x1_0000_0000, 4)
  }

  lemma {:induction false} BigEndianSplits(x: nat, n: nat, m: nat)
    ensures BigEndian(x, n + m) == BigEndian(Drop(x, m), n) + BigEndian(x, m)
    decreases m
  {
    if m > 0 {
      BigEndianSplits(x / 256, n, m - 1);
      calc {
        BigEndian(x, n + m);
        BigEndian(x / 256, n + (m - 1)) + [x % 256];
        BigEndian(Drop(x / 256, m - 1), n) + BigEndian(x / 256, m - 1) + [x % 256];
        BigEndian(Drop(x, m), n) + (BigEndian(x / 256, m - 1) + [x % 256]);
      }
    }
  }

  /** `x` without its `m` low bytes. */
  function Drop(x: nat, m: nat): nat {
    if m == 0 then x else Drop(x / 256, m - 1)
  }

  /** Only the low 32 bits matter for the low four bytes. */
  lemma LowWord(x: nat)
    ensures BigEndian(x, 4) == BigEndian(x % 0x1_0000_0000, 4)
  {
    LowBytes(x, x / 0x1_0000_0000, x % 0x1_0000_0000);
  }

  lemma LowBytes(x: nat, q: nat, y: nat)
    requires x == 0x1_0000_0000 * q + y
    ensures BigEndian(x, 4) == BigEndian(y, 4)
  {
    hide BigEndian;
    FourBytes(x);
    FourBytes(y);
    SameByte(x, y, 0x100_0000, q);
    SameByte(x, y, 0x1_0000, 0x100 * q);
    SameByte(x, y, 256, 0x1_0000 * q);
    SameByte(x, y, 1, 0x100_0000 * q);
  }

  lemma SameByte(x: nat, y: nat, d: nat, m: nat)
    requires d > 0 && x == d * (256 * m) + y
    ensures x / d % 256 == y / d % 256
  {
    DivisionParts(y, d);
    QuotientAbove(x, y, d, m, y / d, y % d, d * (256 * m), d * (y / d));
    WholeBytes(m, y / d);
  }

  /** The quotient of `x`, from the quotient `a` and remainder `b` of `y`, with the products named. */
  lemma QuotientAbove(x: nat, y: nat, d: nat, m: nat, a: nat, b: nat, high: nat, low: nat)
    requires d > 0 && high == d * (256 * m) && low == d * a
    requires x == high + y && y == low + b && b < d
    ensures x / d == 256 * m + a
  {
    Distribute(d, 256 * m, a);
    DivModUnique(x, d, 256 * m + a, b);
  }

  lemma DivisionParts(y: nat, d: nat)
    requires d > 0
    ensures y == d * (y / d) + y % d && y % d < d
  {
  }

  lemma Distribute(d: nat, p: nat, q: nat)
    ensures d * p + d * q == d * (p + q)
  {
  }

  lemma WholeBytes(m: nat, a: nat)
    ensures (256 * m + a) % 256 == a % 256
  {
  }

  lemma DropFour(x: nat)
    ensures Drop(x, 4) == x / 0x1_0000_0000
  {
    var y := x / 256;
    var z := y / 256;
    assert Drop(z, 2) == Drop(z / 256, 1) == z / 256 / 256;
    assert Drop(x, 4) == Drop(y, 3) == Drop(z, 2);
    assert z == x / 0x1_0000;
  }

  lemma ByteQuotients(x: nat)
    ensures x / 256 / 256 == x / 0x1_0000
    ensures x / 256 / 256 / 256 == x / 0x100_0000
  {
  }

  lemma FourBytes(x: nat)
    ensures BigEndian(x, 4) == [x / 0x100_0000 % 256, x / 0x1_0000 % 256, x / 256 % 256, x % 256]
  {
    ByteQuotients(x);
    BytesOf(x, x / 256, x / 256 / 256, x / 256 / 256 / 256);
    hide BigEndian;
  }

  lemma BytesOf(x: nat, y: nat, z: nat, u: nat)
    requires y == x / 256 && z == y / 256 && u == z / 256
    ensures BigEndian(x, 4) == [u % 256, z % 256, y % 256, x % 256]
  {
    assert BigEndian(u, 1) == [u % 256];
    assert BigEndian(z, 2) == BigEndian(u, 1) + [z % 256];
    assert BigEndian(y, 3) == BigEndian(z, 2) + [y % 256];
    assert BigEndian(x, 4) == BigEndian(y, 3) + [x % 256];
  }

  /** The code's padding is the standard's exactly for messages under 2^29 bytes. */
  lemma PaddingAgreesExactlyUnder2Pow29(message: seq<Byte>)
    requires |message| + 72 < 0x1_0000_0000
    ensures PaddedByCode(message) == Pad(message) <==> |message| < 0x2000_0000
  {
    var bits := 8 * |message|;
    var high := bits / 0x1_0000_0000;
    BigEndianSplits(bits, 4, 4);
    LowWord(bits);
    DropFour(bits);
    hide BigEndian, Drop;
    var front := message + [0x80] + Zeros((55 - |message|) % 64);
    PaddingsCompared(front, high, BigEndian(bits, 4));
    assert PaddedByCode(message) == front + Zeros(4) + BigEndian(bits, 4);
    assert Pad(message) == front + BigEndian(high, 4) + BigEndian(bits, 4);
  }

  lemma PaddingsCompared(front: seq<Byte>, high: nat, low: seq<Byte>)
    requires high < 256
    ensures front + Zeros(4) + low == front + BigEndian(high, 4) + low <==> high == 0
  {
    FourBytes(high);
    hide BigEndian;
    assert (front + Zeros(4) + low)[|front| + 3] == 0;
    assert (front + BigEndian(high, 4) + low)[|front| + 3] == high;
    assert high == 0 ==> Zeros(4) == BigEndian(high, 4);
  }


  // ---- the DataView write ----

  method SetUint32(view: array<Byte>, at: nat, x: Word)
    requires at + 4 <= view.Length
    modifies view
    ensures view[..] == old(view[..at]) + BigEndian(x, 4) + old(view[at + 4..])
    ensures view[..at + 4] == old(view[..at]) + BigEndian(x, 4)
  {
    FourBytes(x);
    hide BigEndian;
    view[at], view[at + 1], view[at + 2], view[at + 3] :=
      x / 0x100_0000 % 256, x / 0x1_0000 % 256, x / 256 % 256, x % 256;
  }

  // ---- bit patterns of the un-reduced, partly signed operands ----

  lemma XorPattern(x: int, y: int)
    ensures ToUint32(JsXor(x, y)) == Xor(ToUint32(x), ToUint32(y))
  {
    hide Xor;
  }

  lemma AndPattern(x: int, y: int)
    ensures ToUint32(JsAnd(x, y)) == And(ToUint32(x), ToUint32(y))
  {
    hide And;
  }

  lemma SumPattern(x: int, y: int)
    ensures ToUint32(x + y) == Plus(ToUint32(x), ToUint32(y))
  {
  }

  /** `rotr(x, p) ^ rotr(x, q) ^ rotr(x, r)`, as `S0` and `S1` are computed. */
  function RotrTriple(x: int, p: int, q: int, r: int): int {
    JsXor(JsXor(Rotr(x, p), Rotr(x, q)), Rotr(x, r))
  }

  lemma RotrTriplePattern(x: Word, p: nat, q: nat, r: nat)
    requires 0 < p < 32 && 0 < q < 32 && 0 < r < 32
    ensures ToUint32(RotrTriple(x, p, q, r)) == Xor(Xor(ROTR(p, x), ROTR(q, x)), ROTR(r, x))
  {
    hide Xor, Rotr, ROTR, JsXor;
    WrapLowers(x);
    assert RotrTriple(x, p, q, r) == JsXor(JsXor(Rotr(x, p), Rotr(x, q)), Rotr(x, r));
    hide *;
    RotrPattern(x, p);
    RotrPattern(x, q);
    RotrPattern(x, r);
    XorPattern(Rotr(x, p), Rotr(x, q));
    XorPattern(JsXor(Rotr(x, p), Rotr(x, q)), Rotr(x, r));
  }

  /** `rotr(x, p) ^ rotr(x, q) ^ (x >>> r)`, as `s0` and `s1` are computed. */
  function RotrShift(x: int, p: int, q: int, r: int): int {
    JsXor(JsXor(Rotr(x, p), Rotr(x, q)), JsShrU(x, r))
  }

  lemma RotrShiftPattern(x: Word, p: nat, q: nat, r: nat)
    requires 0 < p < 32 && 0 < q < 32 && 0 < r < 32
    ensures ToUint32(RotrShift(x, p, q, r)) == Xor(Xor(ROTR(p, x), ROTR(q, x)), SHR(r, x))
  {
    assert ToUint32(x) == x && ToUint32(JsShrU(x, r)) == JsShrU(x, r) == SHR(r, x);
    assert RotrShift(x, p, q, r) == JsXor(JsXor(Rotr(x, p), Rotr(x, q)), JsShrU(x, r));
    hide *;
    RotrPattern(x, p);
    RotrPattern(x, q);
    XorPattern(Rotr(x, p), Rotr(x, q));
    XorPattern(JsXor(Rotr(x, p), Rotr(x, q)), JsShrU(x, r));
  }

  function JsCh(e: int, f: int, g: int): int {
    JsXor(JsAnd(e, f), JsAnd(JsNot(e), g))
  }

  lemma ChPattern(e: Word, f: Word, g: Word)
    ensures ToUint32(JsCh(e, f, g)) == Ch(e, f, g)
  {
    NotPattern(e);
    AndPattern(e, f);
    AndPattern(JsNot(e), g);
    XorPattern(JsAnd(e, f), JsAnd(JsNot(e), g));
    hide Xor, And, JsXor, JsAnd, JsNot;
  }

  function JsMaj(a: int, b: int, c: int): int {
    JsXor(JsXor(JsAnd(a, b), JsAnd(a, c)), JsAnd(b, c))
  }

  lemma MajPattern(a: Word, b: Word, c: Word)
    ensures ToUint32(JsMaj(a, b, c)) == Maj(a, b, c)
  {
    AndPattern(a, b);
    AndPattern(a, c);
    AndPattern(b, c);
    XorPattern(JsAnd(a, b), JsAnd(a, c));
    XorPattern(JsXor(JsAnd(a, b), JsAnd(a, c)), JsAnd(b, c));
    hide Xor, And, JsXor, JsAnd;
  }

  // ---- reduced sums; every `JsAdd` shows that its operands and sum are exact ----

  function ScheduleWord(w16: Word, w15: Word, w7: Word, w2: Word): Word {
    JsShrU(JsAdd(JsAdd(JsAdd(w16, RotrShift(w15, 7, 18, 3)), w7), RotrShift(w2, 17, 19, 10)), 0)
  }

  function Temp1(h: Word, e: Word, f: Word, g: Word, k: Word, w: Word): Word {
    JsShrU(JsAdd(JsAdd(JsAdd(JsAdd(h, RotrTriple(e, 6, 11, 25)), JsCh(e, f, g)), k), w), 0)
  }

  function Temp2(a: Word, b: Word, c: Word): Word {
    JsShrU(JsAdd(RotrTriple(a, 2, 13, 22), JsMaj(a, b, c)), 0)
  }

  lemma ReduceFive(x: int, y: int, z: int, u: int, v: int)
    ensures ToUint32(x + y + z + u + v)
         == Plus(Plus(Plus(Plus(ToUint32(x), ToUint32(y)), ToUint32(z)), ToUint32(u)), ToUint32(v))
  {
    hide Plus, ToUint32;
    SumPattern(x, y);
    SumPattern(x + y, z);
    SumPattern(x + y + z, u);
    SumPattern(x + y + z + u, v);
  }

  lemma ReduceFour(x: int, y: int, z: int, u: int)
    ensures ToUint32(x + y + z + u) == Plus(Plus(Plus(ToUint32(x), ToUint32(y)), ToUint32(z)), ToUint32(u))
  {
    hide Plus, ToUint32;
    SumPattern(x, y);
    SumPattern(x + y, z);
    SumPattern(x + y + z, u);
  }

  lemma ScheduleWordPattern(w16: Word, w15: Word, w7: Word, w2: Word)
    ensures ScheduleWord(w16, w15, w7, w2) == Plus(Plus(Plus(SmallSigma1(w2), w7), SmallSigma0(w15)), w16)
  {
    var s0, s1 := RotrShift(w15, 7, 18, 3), RotrShift(w2, 17, 19, 10);
    assert ScheduleWord(w16, w15, w7, w2) == ToUint32(w16 + s0 + w7 + s1) by { hide RotrShift; }
    assert ToUint32(w16) == w16 && ToUint32(w7) == w7 by { hide RotrShift, SmallSigma0, SmallSigma1; }
    hide RotrShift, Xor, ROTR, SHR, Plus, ToUint32, ScheduleWord;
    RotrShiftPattern(w15, 7, 18, 3);
    RotrShiftPattern(w2, 17, 19, 10);
    ReduceFour(s1, w7, s0, w16);
  }

  lemma Temp1Pattern(h: Word, e: Word, f: Word, g: Word, k: Word, w: Word)
    ensures Temp1(h, e, f, g, k, w) == Plus(Plus(Plus(Plus(h, BigSigma1(e)), Ch(e, f, g)), k), w)
  {
    var s1, ch := RotrTriple(e, 6, 11, 25), JsCh(e, f, g);
    assert Temp1(h, e, f, g, k, w) == ToUint32(h + s1 + ch + k + w) by { hide RotrTriple, JsCh; }
    assert ToUint32(h) == h && ToUint32(k) == k && ToUint32(w) == w by { hide RotrTriple, JsCh; }
    hide RotrTriple, JsCh, Ch, Xor, ROTR, Plus, ToUint32, Temp1;
    RotrTriplePattern(e, 6, 11, 25);
    ChPattern(e, f, g);
    ReduceFive(h, s1, ch, k, w);
  }

  lemma Temp2Pattern(a: Word, b: Word, c: Word)
    ensures Temp2(a, b, c) == Plus(BigSigma0(a), Maj(a, b, c))
  {
    var s0, maj := RotrTriple(a, 2, 13, 22), JsMaj(a, b, c);
    assert Temp2(a, b, c) == ToUint32(s0 + maj) by { hide RotrTriple, JsMaj; }
    hide RotrTriple, JsMaj, Maj, Xor, ROTR, Plus, ToUint32, Temp2;
    RotrTriplePattern(a, 2, 13, 22);
    MajPattern(a, b, c);
    SumPattern(s0, maj);
  }

  // ---- sha256Bytes ----

  /** The zeroed buffer with the message and the marker in it. */
  method PlaceMessage(message: seq<Byte>, withPadLen: nat, ghost zeros: nat) returns (padded: array<Byte>)
    requires withPadLen == |message| + 1 + zeros + 8
    ensures padded.Length == withPadLen && fresh(padded)
    ensures padded[..withPadLen - 4] == message + [0x80] + Zeros(zeros) + Zeros(4)
  {
    hide *;
    var n := |message|;
    padded := new Byte[withPadLen](_ => 0);
    forall i | 0 <= i < n {
      padded[i] := message[i];
    }
    padded[n] := 0x80;
    PaddedSoFar(padded[..withPadLen - 4], message, zeros);
  }

  method PadMessage(message: seq<Byte>, withPadLen: nat) returns (padded: array<Byte>)
    requires |message| + 72 < 0x1_0000_0000 && withPadLen == PaddedLength(|message|)
    ensures padded[..] == PaddedByCode(message)
  {
    PaddedLengthIs(|message|);
    hide *;
    padded := PlaceMessage(message, withPadLen, (55 - |message|) % 64);
    SetUint32(padded, withPadLen - 4, ToUint32(8 * |message|));
    assert padded[..withPadLen] == padded[..];
    PaddedDone(padded[..], message);
  }

  lemma PaddedLengthIs(n: nat)
    requires n + 72 < 0x1_0000_0000
    ensures PaddedLength(n) == n + 1 + (55 - n) % 64 + 8
  {
    hide PaddedLength;
    PaddedLengthIsLeast(n, (n + 9 + (55 - n) % 64) / 64);
  }

  lemma PaddedSoFar(front: seq<Byte>, message: seq<Byte>, zeros: nat)
    requires |front| == |message| + 1 + zeros + 4
    requires front[..|message|] == message && front[|message|] == 0x80
    requires forall i :: |message| < i < |front| ==> front[i] == 0
    ensures front == message + [0x80] + Zeros(zeros) + Zeros(4)
  {
  }

  lemma PaddedDone(bytes: seq<Byte>, message: seq<Byte>)
    requires bytes == message + [0x80] + Zeros((55 - |message|) % 64) + Zeros(4) + BigEndian(ToUint32(8 * |message|), 4)
    ensures bytes == PaddedByCode(message)
  {
  }

  lemma FirstWords(bytes: seq<Byte>, block: nat, t: nat)
    requires block + 64 <= |bytes| && t < 16
    ensures W(bytes, block, t) == WordAt(bytes, block + t * 4)
  {
  }

  lemma ScheduleStep(bytes: seq<Byte>, block: nat, t: nat)
    requires block + 64 <= |bytes| && 16 <= t < 64
    ensures ScheduleWord(W(bytes, block, t - 16), W(bytes, block, t - 15), W(bytes, block, t - 7),
                         W(bytes, block, t - 2))
         == W(bytes, block, t)
  {
    ScheduleWordPattern(W(bytes, block, t - 16), W(bytes, block, t - 15), W(bytes, block, t - 7),
                        W(bytes, block, t - 2));
    hide ScheduleWord, Plus, SmallSigma0, SmallSigma1, WordAt;
  }

  /** Fills `w` with the message schedule of the block at `offset`. */
  method FillSchedule(bytes: seq<Byte>, offset: nat, w: array<Word>)
    requires offset + 64 <= |bytes| && w.Length == 64
    modifies w
    ensures w[..] == Schedule(bytes, offset)
  {
    hide *;
    for i := 0 to 16
      invariant forall t :: 0 <= t < i ==> w[t] == W(bytes, offset, t)
    {
      FirstWords(bytes, offset, i);
      w[i] := WordAt(bytes, offset + i * 4);
    }
    for i := 16 to 64
      invariant forall t :: 0 <= t < i ==> w[t] == W(bytes, offset, t)
    {
      ScheduleStep(bytes, offset, i);
      w[i] := ScheduleWord(w[i - 16], w[i - 15], w[i - 7], w[i - 2]);
    }
    ScheduleFilled(bytes, offset, w[..]);
  }

  lemma ScheduleFilled(bytes: seq<Byte>, block: nat, ws: seq<Word>)
    requires block + 64 <= |bytes| && |ws| == 64
    requires forall t :: 0 <= t < 64 ==> ws[t] == W(bytes, block, t)
    ensures ws == Schedule(bytes, block)
  {
    hide W;
  }

  lemma RoundStep(v: Vars, k: Word, w: Word)
    ensures var t1, t2 := Temp1(v.h, v.e, v.f, v.g, k, w), Temp2(v.a, v.b, v.c);
            Round(v, k, w) == Vars(JsShrU(JsAdd(t1, t2), 0), v.a, v.b, v.c, JsShrU(JsAdd(v.d, t1), 0), v.e, v.f, v.g)
  {
    Temp1Pattern(v.h, v.e, v.f, v.g, k, w);
    Temp2Pattern(v.a, v.b, v.c);
    hide Temp1, Temp2, BigSigma0, BigSigma1, Ch, Maj;
  }

  /** The compression loop over the eight rolling variables. */
  method Mix(w: array<Word>, start: Vars) returns (v: Vars)
    requires w.Length == 64
    ensures v == Rounds(w[..], start, 64)
  {
    var Vars(a, b, c, d, e, f, g, h) := start;
    ghost var ws := w[..];
    assert Rounds(ws, start, 0) == start;
    hide *;
    for i := 0 to w.Length
      invariant Vars(a, b, c, d, e, f, g, h) == Rounds(ws, start, i)
    {
      RoundsStep(ws, start, i);
      RoundStep(Vars(a, b, c, d, e, f, g, h), RoundConstant(i), w[i]);
      var temp1 := Temp1(h, e, f, g, RoundConstant(i), w[i]);
      var temp2 := Temp2(a, b, c);
      h := g;
      g := f;
      f := e;
      e := JsShrU(JsAdd(d, temp1), 0);
      d := c;
      c := b;
      b := a;
      a := JsShrU(JsAdd(temp1, temp2), 0);
    }
    v := Vars(a, b, c, d, e, f, g, h);
  }

  method Compress(w: array<Word>, start: Vars) returns (next: Vars)
    requires w.Length == 64
    ensures next == CompressBlock(w[..], start)
  {
    CompressDone(w[..], start);
    hide *;
    var v := Mix(w, start);
    AddReduced(start.a, v.a);
    AddReduced(start.b, v.b);
    AddReduced(start.c, v.c);
    AddReduced(start.d, v.d);
    AddReduced(start.e, v.e);
    AddReduced(start.f, v.f);
    AddReduced(start.g, v.g);
    AddReduced(start.h, v.h);
    next := Vars(JsShrU(JsAdd(start.a, v.a), 0), JsShrU(JsAdd(start.b, v.b), 0),
                 JsShrU(JsAdd(start.c, v.c), 0), JsShrU(JsAdd(start.d, v.d), 0),
                 JsShrU(JsAdd(start.e, v.e), 0), JsShrU(JsAdd(start.f, v.f), 0),
                 JsShrU(JsAdd(start.g, v.g), 0), JsShrU(JsAdd(start.h, v.h), 0));
    AddEach(start, v);
  }

  lemma AddReduced(x: Word, y: Word)
    ensures JsShrU(JsAdd(x, y), 0) == Plus(x, y)
  {
  }

  lemma AddEach(u: Vars, v: Vars)
    ensures AddVars(u, v)
         == Vars(Plus(u.a, v.a), Plus(u.b, v.b), Plus(u.c, v.c), Plus(u.d, v.d),
                 Plus(u.e, v.e), Plus(u.f, v.f), Plus(u.g, v.g), Plus(u.h, v.h))
  {
    hide Plus;
  }

  lemma RoundsStep(ws: seq<Word>, start: Vars, t: nat)
    requires t < |ws| <= 64
    ensures Rounds(ws, start, t + 1) == Round(Rounds(ws, start, t), RoundConstant(t), ws[t])
  {
    hide Round, RoundConstant;
  }

  lemma CompressDone(ws: seq<Word>, start: Vars)
    requires |ws| == 64
    ensures CompressBlock(ws, start) == AddVars(start, Rounds(ws, start, 64))
  {
  }

  method WriteDigest(v: Vars) returns (out: array<Byte>)
    ensures out[..] == Serialize(v)
  {
    hide BigEndian;
    out := new Byte[32](_ => 0);
    SetUint32(out, 0, v.a);
    assert out[..4] == BigEndian(v.a, 4);
    SetUint32(out, 4, v.b);
    SetUint32(out, 8, v.c);
    SetUint32(out, 12, v.d);
    SetUint32(out, 16, v.e);
    SetUint32(out, 20, v.f);
    SetUint32(out, 24, v.g);
    SetUint32(out, 28, v.h);
    assert out[..32] == out[..];
  }

  /** `sha256Bytes`: the standard's digest for every message under 2^29 bytes. */
  method Sha256Bytes(message: seq<Byte>) returns (r: Outcome)
    requires |message| + 72 <= MAX_SAFE
    ensures r == if |message| + 72 < 0x1_0000_0000 then Digest(HashPadded(PaddedByCode(message))) else RangeError
    ensures |message| < 0x2000_0000 ==> r == Digest(Fips180.Sha256(message))
  {
    var withPadLen := PaddedLength(|message|);
    PaddedLengthIsLeast(|message|, withPadLen);
    hide *;
    if withPadLen < |message| {
      return RangeError;
    }
    var padded := PadMessage(message, withPadLen);
    Finish(message);
    var v := HashAll(padded[..], |padded[..]| / 64);
    var out := WriteDigest(v);
    r := Digest(out[..]);
  }

  /** One iteration of the outer loop. */
  method HashBlock(bytes: seq<Byte>, offset: nat, w: array<Word>, v: Vars, ghost n: nat) returns (next: Vars)
    requires offset == 64 * n && offset + 64 <= |bytes| && w.Length == 64
    requires v == HashBlocks(bytes, n)
    modifies w
    ensures next == HashBlocks(bytes, n + 1)
  {
    BlockStep(bytes, n);
    hide *;
    FillSchedule(bytes, offset, w);
    next := Compress(w, v);
  }

  method HashAll(bytes: seq<Byte>, ghost blocks: nat) returns (v: Vars)
    requires |bytes| == 64 * blocks
    ensures v == HashBlocks(bytes, blocks)
  {
    NoBlocks(bytes);
    hide *;
    var w := new Word[64];
    v := H0;
    var offset := 0;
    ghost var n := 0;
    while offset < |bytes|
      invariant n <= blocks && offset == 64 * n
      invariant v == HashBlocks(bytes, n)
    {
      v := HashBlock(bytes, offset, w, v, n);
      offset, n := offset + 64, n + 1;
    }
  }

  lemma NoBlocks(bytes: seq<Byte>)
    ensures HashBlocks(bytes, 0) == H0
  {
  }

  lemma BlockStep(bytes: seq<Byte>, n: nat)
    requires 64 * n + 64 <= |bytes|
    ensures HashBlocks(bytes, n + 1) == CompressBlock(Schedule(bytes, 64 * n), HashBlocks(bytes, n))
  {
    hide CompressBlock, Schedule;
  }

  lemma Finish(message: seq<Byte>)
    requires |message| + 72 < 0x1_0000_0000
    ensures |PaddedByCode(message)| % 64 == 0
    ensures HashPadded(PaddedByCode(message))
         == Serialize(HashBlocks(PaddedByCode(message), |PaddedByCode(message)| / 64))
    ensures |message| < 0x2000_0000 ==> HashPadded(PaddedByCode(message)) == Fips180.Sha256(message)
  {
    PaddedLengthMultiple(message);
    PaddingAgreesExactlyUnder2Pow29(message);
    hide PaddedByCode, Pad, HashBlocks, Serialize;
  }

  lemma PaddedLengthMultiple(message: seq<Byte>)
    ensures |PaddedByCode(message)| % 64 == 0
  {
    hide BigEndian;
    var n := |message|;
    var zeros := (55 - n) % 64;
    assert (n + 9 + zeros) % 64 == 0 by { hide *; }
    assert |PaddedByCode(message)| == n + 1 + zeros + 4 + 4;
  }
}
