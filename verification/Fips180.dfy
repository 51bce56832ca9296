/** SHA-256 as section 5 and section 6.2 of FIPS 180-4 define it, on whole bytes. */
module Fips180 {
  import opened Word32

  type Byte = x: int | 0 <= x < 256

  /** The constants of section 4.2.2, eight in a row. */
  const K: seq<seq<Word>> := [
    [0x428a2f98, 0x71374491, 0xb5c0fbcf, 0xe9b5dba5, 0x3956c25b, 0x59f111f1, 0x923f82a4, 0xab1c5ed5],
    [0xd807aa98, 0x12835b01, 0x243185be, 0x550c7dc3, 0x72be5d74, 0x80deb1fe, 0x9bdc06a7, 0xc19bf174],
    [0xe49b69c1, 0xefbe4786, 0x0fc19dc6, 0x240ca1cc, 0x2de92c6f, 0x4a7484aa, 0x5cb0a9dc, 0x76f988da],
    [0x983e5152, 0xa831c66d, 0xb00327c8, 0xbf597fc7, 0xc6e00bf3, 0xd5a79147, 0x06ca6351, 0x14292967],
    [0x27b70a85, 0x2e1b2138, 0x4d2c6dfc, 0x53380d13, 0x650a7354, 0x766a0abb, 0x81c2c92e, 0x92722c85],
    [0xa2bfe8a1, 0xa81a664b, 0xc24b8b70, 0xc76c51a3, 0xd192e819, 0xd6990624, 0xf40e3585, 0x106aa070],
    [0x19a4c116, 0x1e376c08, 0x2748774c, 0x34b0bcb5, 0x391c0cb3, 0x4ed8aa4a, 0x5b9cca4f, 0x682e6ff3],
    [0x748f82ee, 0x78a5636f, 0x84c87814, 0x8cc70208, 0x90befffa, 0xa4506ceb, 0xbef9a3f7, 0xc67178f2]]

  function RoundConstant(t: nat): Word
    requires t < 64
  {
    K[t / 8][t % 8]
  }

  /** Eight words: the hash value, and also the working variables of one block. */
  datatype Vars = Vars(a: Word, b: Word, c: Word, d: Word, e: Word, f: Word, g: Word, h: Word)

  const H0: Vars := Vars(0x6a09e667, 0xbb67ae85, 0x3c6ef372, 0xa54ff53a,
                         0x510e527f, 0x9b05688c, 0x1f83d9ab, 0x5be0cd19)

  // ---- section 3.2: operations on words ----

  function Plus(x: Word, y: Word): Word { (x + y) % 0x1_0000_0000 }

  function SHR(n: nat, x: Word): Word { ShiftRight(x, n) }

  function ROTR(n: nat, x: Word): Word
    requires n < 32
  {
    Or(ShiftRight(x, n), ShiftLeft(x, 32 - n))
  }

  /** ROTR is the circular shift: every bit moves down by `n`, and the low ones come back at the top. */
  lemma RotateMovesBits(n: nat, x: Word, i: nat)
    requires n < 32 && i < 32
    ensures Bit(ROTR(n, x), i) == Bit(x, (i + n) % 32)
  {
    OrBit(ShiftRight(x, n), ShiftLeft(x, 32 - n), i);
    ShiftRightCompose(x, n, i);
    ShiftLeftBit(x, 32 - n, i);
    PlaceWraps(n, i);
    hide Or, ShiftLeft, ShiftRight, Bit;
    if i + n >= 32 {
      HighBitsClear(x, i + n);
    }
  }

  lemma PlaceWraps(n: nat, i: nat)
    requires n < 32 && i < 32
    ensures (i + n) % 32 == if i + n < 32 then i + n else i - (32 - n)
  {
  }

  // ---- section 4.1.2: the six functions ----

  function Ch(x: Word, y: Word, z: Word): Word { Xor(And(x, y), And(Not(x), z)) }
  function Maj(x: Word, y: Word, z: Word): Word { Xor(Xor(And(x, y), And(x, z)), And(y, z)) }
  function BigSigma0(x: Word): Word { Xor(Xor(ROTR(2, x), ROTR(13, x)), ROTR(22, x)) }
  function BigSigma1(x: Word): Word { Xor(Xor(ROTR(6, x), ROTR(11, x)), ROTR(25, x)) }
  function SmallSigma0(x: Word): Word { Xor(Xor(ROTR(7, x), ROTR(18, x)), SHR(3, x)) }
  function SmallSigma1(x: Word): Word { Xor(Xor(ROTR(17, x), ROTR(19, x)), SHR(10, x)) }

  predicate Odd3(a: bool, b: bool, c: bool) {
    (a != b) != c
  }

  /** Bit for bit, Ch chooses between two words by the first, and Maj is the majority of three. */
  lemma ChoiceAndMajority(x: Word, y: Word, z: Word, i: nat)
    requires i < 32
    ensures Bit(Ch(x, y, z), i) == if Bit(x, i) then Bit(y, i) else Bit(z, i)
    ensures Bit(Maj(x, y, z), i)
      <==> (Bit(x, i) && Bit(y, i)) || (Bit(x, i) && Bit(z, i)) || (Bit(y, i) && Bit(z, i))
  {
    hide Bit, And, Xor, Not;
    NotBit(x, i);
    AndBit(x, y, i);
    AndBit(Not(x), z, i);
    XorBit(And(x, y), And(Not(x), z), i);
    AndBit(x, z, i);
    AndBit(y, z, i);
    XorBit(And(x, y), And(x, z), i);
    XorBit(Xor(And(x, y), And(x, z)), And(y, z), i);
  }

  lemma ThreeRotations(x: Word, a: nat, b: nat, c: nat, i: nat)
    requires a < 32 && b < 32 && c < 32 && i < 32
    ensures Bit(Xor(Xor(ROTR(a, x), ROTR(b, x)), ROTR(c, x)), i)
         == Odd3(Bit(x, (i + a) % 32), Bit(x, (i + b) % 32), Bit(x, (i + c) % 32))
  {
    hide Bit, Xor, ROTR;
    RotateMovesBits(a, x, i);
    RotateMovesBits(b, x, i);
    RotateMovesBits(c, x, i);
    XorBit(ROTR(a, x), ROTR(b, x), i);
    XorBit(Xor(ROTR(a, x), ROTR(b, x)), ROTR(c, x), i);
  }

  lemma TwoRotationsAndShift(x: Word, a: nat, b: nat, c: nat, i: nat)
    requires a < 32 && b < 32 && c < 32 && i < 32
    ensures Bit(Xor(Xor(ROTR(a, x), ROTR(b, x)), SHR(c, x)), i)
         == Odd3(Bit(x, (i + a) % 32), Bit(x, (i + b) % 32), i + c < 32 && Bit(x, i + c))
  {
    RotateMovesBits(a, x, i);
    RotateMovesBits(b, x, i);
    ShiftRightCompose(x, c, i);
    if i + c >= 32 {
      HighBitsClear(x, i + c);
    }
    assert Bit(SHR(c, x), i) == (i + c < 32 && Bit(x, i + c));
    hide Bit, Xor, ROTR, SHR;
    XorBit(ROTR(a, x), ROTR(b, x), i);
    XorBit(Xor(ROTR(a, x), ROTR(b, x)), SHR(c, x), i);
  }

  /** Bit for bit, the four sums of three moved copies of a word; the small ones shift the last copy out. */
  lemma SigmaBits(x: Word, i: nat)
    requires i < 32
    ensures Bit(BigSigma0(x), i) == Odd3(Bit(x, (i + 2) % 32), Bit(x, (i + 13) % 32), Bit(x, (i + 22) % 32))
    ensures Bit(BigSigma1(x), i) == Odd3(Bit(x, (i + 6) % 32), Bit(x, (i + 11) % 32), Bit(x, (i + 25) % 32))
    ensures Bit(SmallSigma0(x), i) == Odd3(Bit(x, (i + 7) % 32), Bit(x, (i + 18) % 32), i < 29 && Bit(x, i + 3))
    ensures Bit(SmallSigma1(x), i) == Odd3(Bit(x, (i + 17) % 32), Bit(x, (i + 19) % 32), i < 22 && Bit(x, i + 10))
  {
    hide Bit, Xor, ROTR, SHR;
    ThreeRotations(x, 2, 13, 22, i);
    ThreeRotations(x, 6, 11, 25, i);
    TwoRotationsAndShift(x, 7, 18, 3, i);
    TwoRotationsAndShift(x, 17, 19, 10, i);
  }

  // ---- section 5.1.1: padding ----

  function Zeros(n: nat): seq<Byte> {
    seq(n, _ => 0)
  }

  /** The `n` low bytes of `x`, most significant first. */
  function BigEndian(x: nat, n: nat): (s: seq<Byte>)
    ensures |s| == n
  {
    if n == 0 then [] else BigEndian(x / 256, n - 1) + [x % 256]
  }

  /** The bit `1`, the least number of zero bits that leaves room for exactly the length, and the length in 64 bits. */
  function Pad(message: seq<Byte>): seq<Byte> {
    message + [0x80] + Zeros((55 - |message|) % 64) + BigEndian(8 * |message|, 8)
  }

  // ---- section 5.2.1: parsing ----

  function WordAt(bytes: seq<Byte>, i: nat): Word
    requires i + 4 <= |bytes|
  {
    var b0: int, b1: int, b2: int, b3: int := bytes[i], bytes[i + 1], bytes[i + 2], bytes[i + 3];
    0x100_0000 * b0 + 0x1_0000 * b1 + 0x100 * b2 + b3
  }

  // ---- section 6.2.2: one block ----

  /** Word `t` of the message schedule of the block that starts at `block`. */
  function W(bytes: seq<Byte>, block: nat, t: nat): Word
    requires block + 64 <= |bytes|
    decreases t
  {
    if t < 16 then WordAt(bytes, block + 4 * t)
    else Plus(Plus(Plus(SmallSigma1(W(bytes, block, t - 2)), W(bytes, block, t - 7)),
                   SmallSigma0(W(bytes, block, t - 15))), W(bytes, block, t - 16))
  }

  function Round(v: Vars, k: Word, w: Word): Vars {
    var t1 := Plus(Plus(Plus(Plus(v.h, BigSigma1(v.e)), Ch(v.e, v.f, v.g)), k), w);
    var t2 := Plus(BigSigma0(v.a), Maj(v.a, v.b, v.c));
    Vars(Plus(t1, t2), v.a, v.b, v.c, Plus(v.d, t1), v.e, v.f, v.g)
  }

  function Schedule(bytes: seq<Byte>, block: nat): (ws: seq<Word>)
    requires block + 64 <= |bytes|
    ensures |ws| == 64
  {
    seq(64, t requires 0 <= t < 64 => W(bytes, block, t))
  }

  /** The working variables after `t` rounds over the schedule `ws`. */
  function Rounds(ws: seq<Word>, start: Vars, t: nat): Vars
    requires t <= |ws| <= 64
    decreases t
  {
    if t == 0 then start
    else Round(Rounds(ws, start, t - 1), RoundConstant(t - 1), ws[t - 1])
  }

  function AddVars(u: Vars, v: Vars): Vars {
    Vars(Plus(u.a, v.a), Plus(u.b, v.b), Plus(u.c, v.c), Plus(u.d, v.d),
         Plus(u.e, v.e), Plus(u.f, v.f), Plus(u.g, v.g), Plus(u.h, v.h))
  }

  function CompressBlock(ws: seq<Word>, start: Vars): Vars
    requires |ws| == 64
  {
    AddVars(start, Rounds(ws, start, |ws|))
  }

  /** The hash value after `n` blocks. */
  function HashBlocks(bytes: seq<Byte>, n: nat): Vars
    requires 64 * n <= |bytes|
    decreases n
  {
    if n == 0 then H0
    else
      var previous := HashBlocks(bytes, n - 1);
      CompressBlock(Schedule(bytes, 64 * (n - 1)), previous)
  }

  function Serialize(v: Vars): (digest: seq<Byte>)
    ensures |digest| == 32
  {
    BigEndian(v.a, 4) + BigEndian(v.b, 4) + BigEndian(v.c, 4) + BigEndian(v.d, 4) +
    BigEndian(v.e, 4) + BigEndian(v.f, 4) + BigEndian(v.g, 4) + BigEndian(v.h, 4)
  }

  function HashPadded(bytes: seq<Byte>): (digest: seq<Byte>)
    ensures |digest| == 32
  {
    Serialize(HashBlocks(bytes, |bytes| / 64))
  }

  function Sha256(message: seq<Byte>): (digest: seq<Byte>)
    ensures |digest| == 32
  {
    HashPadded(Pad(message))
  }
}
