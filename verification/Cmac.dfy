/** AES-128-CMAC over an uninterpreted block cipher (RFC 4493). */
module Cmac {
  import opened Bytes

  /** cipher(key, block) */
  type Cipher = (Block, Block) -> Block

  // ------------------------------------- subkeys: doubling in GF(2^128)

  /** Coefficient of x^k of the polynomial a block stands for, most significant bit first. */
  function Coefficient(b: Block, k: nat): bool
    requires k < 128
  {
    Bit(b[15 - k / 8], k % 8)
  }

  function ShiftLeft(b: Block): Block {
    seq(16, i requires 0 <= i < 16 => ShiftedByte(b, i))
  }

  function ShiftedByte(b: Block, i: nat): byte
    requires i < 16
  {
    2 * (b[i] % 128) + if i < 15 && b[i + 1] >= 128 then 1 else 0
  }

  function Double(b: Block): Block {
    var s := ShiftLeft(b);
    if b[0] >= 128 then s[15 := Xor(s[15], 0x87)] else s
  }

  /** Coefficients of the low part of the field polynomial x^128 + x^7 + x^2 + x + 1. */
  predicate InFieldPolynomial(k: nat) {
    k == 0 || k == 1 || k == 2 || k == 7
  }

  lemma {:induction false} TopBit(v: nat, k: nat)
    requires v < Pow2(k + 1)
    ensures Bit(v, k) <==> v >= Pow2(k)
    decreases k
  {
    if k > 0 { TopBit(v / 2, k - 1); }
  }

  lemma TopBitOfByte(v: byte)
    ensures Bit(v, 7) <==> v >= 128
  {
    Pow2Of8();
    assert Pow2(7) == 128;
    TopBit(v, 7);
  }

  lemma {:induction false} BitIgnoresHighPart(v: nat, w: nat, k: nat)
    requires k < w
    ensures Bit(v + Pow2(w), k) == Bit(v, k)
    decreases w
  {
    if k > 0 {
      assert (v + Pow2(w)) / 2 == v / 2 + Pow2(w - 1);
      BitIgnoresHighPart(v / 2, w - 1, k - 1);
    }
  }

  lemma ShiftedByteBit(b: Block, i: nat, k: nat)
    requires i < 16 && k < 8
    ensures Bit(ShiftedByte(b, i), k) ==
            if k > 0 then Bit(b[i], k - 1) else i < 15 && Bit(b[i + 1], 7)
  {
    hide Bit;
    if k > 0 {
      BitOfHalf(ShiftedByte(b, i), k);
      assert ShiftedByte(b, i) / 2 == b[i] % 128;
      BitOfLowPart(b[i], k - 1);
    } else {
      LowestBit(ShiftedByte(b, i));
      if i < 15 { TopBitOfByte(b[i + 1]); }
    }
  }

  lemma BitOfHalf(v: nat, k: nat)
    requires k > 0
    ensures Bit(v, k) == Bit(v / 2, k - 1)
  {
  }

  lemma LowestBit(v: nat)
    ensures Bit(v, 0) <==> v % 2 == 1
  {
  }

  lemma BitOfLowPart(v: byte, k: nat)
    requires k < 7
    ensures Bit(v % 128, k) == Bit(v, k)
  {
    hide Bit;
    assert Pow2(7) == 128 by { assert Pow2(4) == 16; }
    BitIgnoresHighPart(v % 128, 7, k);
    assert v == v % 128 || v == v % 128 + 128;
  }

  lemma ShiftLeftCoefficient(b: Block, k: nat)
    requires k < 128
    ensures Coefficient(ShiftLeft(b), k) == (k > 0 && Coefficient(b, k - 1))
  {
    ShiftedByteBit(b, 15 - k / 8, k % 8);
    if k > 0 {
      if k % 8 == 0 { assert (k - 1) / 8 == k / 8 - 1 && (k - 1) % 8 == 7; }
      else { assert (k - 1) / 8 == k / 8 && (k - 1) % 8 == k % 8 - 1; }
    }
  }

  /** Doubling multiplies by x modulo the field polynomial. */
  lemma DoubleMultipliesByX(b: Block, k: nat)
    requires k < 128
    ensures Coefficient(Double(b), k) ==
            ((k > 0 && Coefficient(b, k - 1)) != (Coefficient(b, 127) && InFieldPolynomial(k)))
  {
    ShiftLeftCoefficient(b, k);
    TopBitOfByte(b[0]);
    if b[0] >= 128 && k < 8 {
      XorBit(ShiftLeft(b)[15], 0x87, k);
      BitsOf87();
    }
  }

  lemma BitsOf87()
    ensures forall k: nat | k < 8 :: Bit(0x87, k) == InFieldPolynomial(k)
  {
    assert Bit(0x87, 1) == Bit(0x43, 0);
    assert Bit(0x87, 2) == Bit(0x43, 1) == Bit(0x21, 0);
    assert Bit(0x87, 3) == Bit(0x21, 1) == Bit(0x10, 0);
    assert Bit(0x87, 4) == Bit(0x10, 1) == Bit(0x8, 0);
    assert Bit(0x87, 5) == Bit(0x8, 1) == Bit(0x4, 0);
    assert Bit(0x87, 6) == Bit(0x4, 1) == Bit(0x2, 0);
    assert Bit(0x87, 7) == Bit(0x2, 1) == Bit(0x1, 0);
  }

  lemma {:induction false} BitsDetermine(w: nat, a: nat, b: nat)
    requires a < Pow2(w) && b < Pow2(w)
    requires forall k: nat | k < w :: Bit(a, k) == Bit(b, k)
    ensures a == b
    decreases w
  {
    if w > 0 {
      forall k: nat | k < w - 1 ensures Bit(a / 2, k) == Bit(b / 2, k) {
        assert Bit(a, k + 1) == Bit(b, k + 1);
      }
      BitsDetermine(w - 1, a / 2, b / 2);
      assert Bit(a, 0) == Bit(b, 0);
    }
  }

  /** The coefficients determine the block, so the law above pins `Double` down. */
  lemma CoefficientsDetermine(a: Block, b: Block)
    requires forall k: nat | k < 128 :: Coefficient(a, k) == Coefficient(b, k)
    ensures a == b
  {
    Pow2Of8();
    forall i: nat | i < 16 ensures a[i] == b[i] {
      forall k: nat | k < 8 ensures Bit(a[i], k) == Bit(b[i], k) {
        assert Coefficient(a, 8 * (15 - i) + k) == Coefficient(b, 8 * (15 - i) + k);
      }
      BitsDetermine(8, a[i], b[i]);
    }
  }

  method LeftShiftOneBit(input: array<byte>) returns (result: array<byte>)
    requires input.Length == 16
    ensures fresh(result) && result.Length == 16 && result[..] == ShiftLeft(input[..])
  {
    result := new byte[16](_ => 0);
    var carry: byte := 0;
    var i := 16;
    while i > 0
      invariant 0 <= i <= 16
      invariant carry == if i < 16 && input[i] >= 128 then 1 else 0
      invariant forall j | i <= j < 16 :: result[j] == ShiftedByte(input[..], j)
    {
      var b := input[i - 1];
      result[i - 1] := 2 * (b % 128) + carry;
      carry := if b >= 128 then 1 else 0;
      i := i - 1;
    }
  }

  method SubkeyDouble(input: array<byte>) returns (result: array<byte>)
    requires input.Length == 16
    ensures fresh(result) && result.Length == 16 && result[..] == Double(input[..])
  {
    result := LeftShiftOneBit(input);
    if input[0] >= 128 {
      result[15] := Xor(result[15], 0x87);
    }
  }

  // --------------------------------------------------------------- the MAC

  function Pad(tail: bytes): Block
    requires |tail| < 16
  {
    tail + [0x80] + Zeros(15 - |tail|)
  }

  /** CBC over the blocks of `data`; the last one is masked by `k1` when it is
      complete, and padded and masked by `k2` otherwise. */
  function Absorb(cipher: Cipher, key: Block, k1: Block, k2: Block, state: Block, data: bytes): Block
    decreases |data|
  {
    if |data| > 16 then
      Absorb(cipher, key, k1, k2, cipher(key, XorBytes(state, data[..16])), data[16..])
    else if |data| == 16 then cipher(key, XorBytes(state, XorBytes(data, k1)))
    else cipher(key, XorBytes(state, XorBytes(Pad(data), k2)))
  }

  function Cmac(cipher: Cipher, key: bytes, data: bytes): Result<Block> {
    if |key| != 16 then Err(UnsupportedCapability)
    else
      var k1 := Double(cipher(key, Zeros(16)));
      Ok(Absorb(cipher, key, k1, Double(k1), Zeros(16), data))
  }

  lemma AbsorbBlock(cipher: Cipher, key: Block, k1: Block, k2: Block, state: Block, data: bytes, at: nat)
    requires at + 16 < |data|
    ensures Absorb(cipher, key, k1, k2, state, data[at..])
         == Absorb(cipher, key, k1, k2, cipher(key, XorBytes(state, data[at..at + 16])), data[at + 16..])
  {
    assert data[at..][..16] == data[at..at + 16];
    assert data[at..][16..] == data[at + 16..];
  }

  method Subkeys(cipher: Cipher, key: Block) returns (k1: Block, k2: Block)
    ensures k1 == Double(cipher(key, Zeros(16))) && k2 == Double(k1)
  {
    var l := cipher(key, Zeros(16));
    var la := new byte[16](i requires 0 <= i < 16 => l[i]);
    assert la[..] == l;
    var a1 := SubkeyDouble(la);
    var a2 := SubkeyDouble(a1);
    k1, k2 := a1[..], a2[..];
  }

  /** The last block of the absorption: complete, or padded. */
  lemma AbsorbLast(cipher: Cipher, key: Block, k1: Block, k2: Block, state: Block, data: bytes, at: nat)
    requires at <= |data| <= at + 16
    ensures var tail := data[at..];
            Absorb(cipher, key, k1, k2, state, tail)
            == cipher(key, XorBytes(state, if |tail| == 16 then XorBytes(tail, k1) else XorBytes(Pad(tail), k2)))
  {
    hide XorBytes, Pad;
  }

  /** The index arithmetic of the implementation computes the specification for
      data of every length, the empty one included. */
  method Aes128Cmac(cipher: Cipher, key: bytes, data: bytes) returns (r: Result<Block>)
    ensures r == Cmac(cipher, key, data)
  {
    hide Absorb, Double, XorBytes, Pad;
    if |key| != 16 {
      return Err(UnsupportedCapability);
    }
    var k1, k2 := Subkeys(cipher, key);
    var complete := |data| > 0 && |data| % 16 == 0;
    var blockCount := if complete then |data| / 16 else |data| / 16 + 1;
    var tail := data[(blockCount - 1) * 16..];
    var finalBlock := if complete then XorBytes(tail, k1) else XorBytes(Pad(tail), k2);

    var state: Block := Zeros(16);
    var block := 0;
    assert data[0..] == data;
    while block + 1 < blockCount
      invariant 0 <= block < blockCount
      invariant Absorb(cipher, key, k1, k2, state, data[block * 16..])
             == Absorb(cipher, key, k1, k2, Zeros(16), data)
    {
      AbsorbBlock(cipher, key, k1, k2, state, data, block * 16);
      state := cipher(key, XorBytes(state, data[block * 16..block * 16 + 16]));
      block := block + 1;
    }
    AbsorbLast(cipher, key, k1, k2, state, data, block * 16);
    r := Ok(cipher(key, XorBytes(state, finalBlock)));
  }

  // ------------------------------------------- the MAC as RFC 4493 describes it

  /** `b` is x times `a` in the field of section 2.3, coefficient by coefficient. */
  predicate TimesX(a: Block, b: Block) {
    forall k | 0 <= k < 128 ::
      Coefficient(b, k) == ((k > 0 && Coefficient(a, k - 1)) != (Coefficient(a, 127) && k in {0, 1, 2, 7}))
  }

  lemma DoubleIsTimesX(b: Block)
    ensures TimesX(b, Double(b))
  {
    hide Double, Coefficient;
    forall k | 0 <= k < 128
      ensures Coefficient(Double(b), k)
           == ((k > 0 && Coefficient(b, k - 1)) != (Coefficient(b, 127) && k in {0, 1, 2, 7}))
    {
      DoubleMultipliesByX(b, k);
    }
  }

  /** Number of blocks, at least one. */
  function BlockCount(data: bytes): (n: nat)
    ensures n >= 1 && (n - 1) * 16 <= |data| <= n * 16 && (data != [] ==> (n - 1) * 16 < |data|)
  {
    if data == [] then 1 else (|data| + 15) / 16
  }

  /** The chaining states before each block, from zero. */
  ghost predicate Chaining(cipher: Cipher, key: Block, data: bytes, states: seq<Block>) {
    && |states| == BlockCount(data) && (forall j | 0 <= j < 16 :: states[0][j] == 0)
    && forall i | 0 <= i < |states| - 1 ::
         states[i + 1] == cipher(key, XorBytes(states[i], data[16 * i..16 * i + 16]))
  }

  /** The tail of the data, then 0x80 and zeros if it is short of a block. */
  predicate Completes(last: Block, tail: bytes) {
    |tail| <= 16 && forall j | 0 <= j < 16 ::
      last[j] == if j < |tail| then tail[j] else if j == |tail| then 0x80 else 0
  }

  lemma {:induction false} AbsorbStates(cipher: Cipher, key: Block, k1: Block, k2: Block, state: Block, data: bytes)
      returns (states: seq<Block>, last: Block)
    ensures |states| == BlockCount(data) && states[0] == state
    ensures forall i | 0 <= i < |states| - 1 ::
      states[i + 1] == cipher(key, XorBytes(states[i], data[16 * i..16 * i + 16]))
    ensures var tail := data[16 * (|states| - 1)..];
            && Completes(last, tail)
            && Absorb(cipher, key, k1, k2, state, data)
               == cipher(key, XorBytes(states[|states| - 1], XorBytes(last, if |tail| == 16 then k1 else k2)))
    decreases |data|
  {
    hide XorBytes;
    if |data| > 16 {
      var rest;
      rest, last := AbsorbStates(cipher, key, k1, k2, cipher(key, XorBytes(state, data[..16])), data[16..]);
      states := [state] + rest;
      forall i | 0 <= i < |states| - 1
        ensures states[i + 1] == cipher(key, XorBytes(states[i], data[16 * i..16 * i + 16]))
      {
        if i > 0 {
          assert data[16..][16 * (i - 1)..16 * (i - 1) + 16] == data[16 * i..16 * i + 16];
          assert rest[i] == cipher(key, XorBytes(rest[i - 1], data[16..][16 * (i - 1)..16 * (i - 1) + 16]));
        }
      }
      assert data[16..][16 * (|rest| - 1)..] == data[16 * |rest|..];
    } else {
      states := [state];
      last := if |data| == 16 then data else Pad(data);
      assert data[0..] == data;
    }
  }

  /** Section 2.4: for data of every length the MAC is the encryption of the last
      chaining state, the completed last block and a subkey: x times the encrypted zero
      block for a whole block, x times that for a short one. */
  lemma MacAsInRfc4493(cipher: Cipher, key: bytes, data: bytes)
      returns (states: seq<Block>, last: Block, zero: Block, k1: Block, k2: Block)
    requires |key| == 16
    ensures Chaining(cipher, key, data, states)
    ensures (forall j | 0 <= j < 16 :: zero[j] == 0) && TimesX(cipher(key, zero), k1) && TimesX(k1, k2)
    ensures var tail := data[16 * (|states| - 1)..];
            && Completes(last, tail)
            && Cmac(cipher, key, data) == Ok(cipher(key, XorBytes(states[|states| - 1],
                                                  XorBytes(last, if |tail| == 16 then k1 else k2))))
  {
    hide Absorb, Double, TimesX, Completes, XorBytes;
    zero := Zeros(16);
    k1 := Double(cipher(key, zero));
    k2 := Double(k1);
    DoubleIsTimesX(cipher(key, zero));
    DoubleIsTimesX(k1);
    states, last := AbsorbStates(cipher, key, k1, k2, zero, data);
  }
}
