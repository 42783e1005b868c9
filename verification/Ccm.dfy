/** AES-128-CCM over an uninterpreted block cipher (RFC 3610, NIST SP 800-38C). */
module Ccm {
  import opened Bytes
  import Cmac

  datatype Sealed = Sealed(ciphertext: bytes, tag: bytes)

  // ------------------------------------------------------------- formatting

  function RoundUp16(n: nat): (r: nat)
    ensures r % 16 == 0 && n <= r < n + 16
  {
    n + (16 - n % 16) % 16
  }

  /** `b` followed by zeros up to a block boundary. */
  function PadToBlock(b: bytes): (r: bytes)
    ensures |r| == RoundUp16(|b|) && b <= r
  {
    b + Zeros(RoundUp16(|b|) - |b|)
  }

  const AAD_LIMIT: nat := 0xFF00

  function FormatAad(aad: bytes): (r: bytes)
    ensures |r| % 16 == 0
  {
    if aad == [] || |aad| >= AAD_LIMIT then [] else PadToBlock(Be(|aad|, 2) + aad)
  }

  method PadBytes(unpadded: bytes) returns (padded: bytes)
    ensures padded == PadToBlock(unpadded)
  {
    padded := unpadded;
    while |padded| % 16 != 0
      invariant |unpadded| <= |padded| <= RoundUp16(|unpadded|)
      invariant padded == unpadded + Zeros(|padded| - |unpadded|)
      decreases RoundUp16(|unpadded|) - |padded|
    {
      padded := padded + [0];
    }
  }

  method FormatAadBytes(aad: bytes) returns (formatted: bytes)
    ensures formatted == FormatAad(aad)
  {
    if aad == [] || |aad| >= AAD_LIMIT { return []; }
    formatted := PadBytes(Be(|aad|, 2) + aad);
  }

  /** Width in bytes of the length and counter fields. */
  function LengthWidth(nonce: bytes): nat
    requires |nonce| <= 15
  {
    15 - |nonce|
  }

  function FlagsByte(hasAad: bool, tagLength: nat, width: nat): byte
    requires 4 <= tagLength <= 16 && tagLength % 2 == 0 && 1 <= width <= 8
  {
    (if hasAad then 0x40 else 0) + 8 * ((tagLength - 2) / 2) + (width - 1)
  }

  predicate ValidParameters(nonce: bytes, plaintext: bytes, aad: bytes, tagLength: nat) {
    && 8 <= |nonce| <= 13
    && 4 <= tagLength <= 16 && tagLength % 2 == 0
    && |plaintext| < Pow256(LengthWidth(nonce))
    && |aad| < AAD_LIMIT
  }

  function B0(nonce: bytes, plaintextLength: nat, hasAad: bool, tagLength: nat): Block
    requires 8 <= |nonce| <= 13 && 4 <= tagLength <= 16 && tagLength % 2 == 0
  {
    [FlagsByte(hasAad, tagLength, LengthWidth(nonce))] + nonce + Be(plaintextLength, LengthWidth(nonce))
  }

  lemma MultiplesOf16(m: nat, n: nat)
    requires m % 16 == 0 && n % 16 == 0
    ensures (16 + m + n) % 16 == 0
  {
  }

  /** The block string the CBC-MAC runs over. */
  function Format(nonce: bytes, plaintext: bytes, aad: bytes, tagLength: nat): (r: bytes)
    requires ValidParameters(nonce, plaintext, aad, tagLength)
    ensures |r| % 16 == 0
  {
    MultiplesOf16(|FormatAad(aad)|, |PadToBlock(plaintext)|);
    B0(nonce, |plaintext|, aad != [], tagLength) + FormatAad(aad) + PadToBlock(plaintext)
  }

  // ---------------------------------------------------------------- CBC-MAC

  /** CBC chaining over whole blocks. */
  function Chain(cipher: Cmac.Cipher, key: Block, state: Block, data: bytes): Block
    requires |data| % 16 == 0
    decreases |data|
  {
    if data == [] then state
    else Chain(cipher, key, cipher(key, XorBytes(state, data[..16])), data[16..])
  }

  lemma {:induction false} ChainConcat(cipher: Cmac.Cipher, key: Block, state: Block, a: bytes, b: bytes)
    requires |a| % 16 == 0 && |b| % 16 == 0
    ensures Chain(cipher, key, state, a + b) == Chain(cipher, key, Chain(cipher, key, state, a), b)
    decreases |a|
  {
    if a == [] {
      assert a + b == b;
    } else {
      assert (a + b)[..16] == a[..16] && (a + b)[16..] == a[16..] + b;
      ChainConcat(cipher, key, cipher(key, XorBytes(state, a[..16])), a[16..], b);
    }
  }

  /** The 64-bit limit on the plaintext length: it wraps to zero for a field of
      eight bytes or more, so nothing is ever short enough for a nonce below eight bytes. */
  function MaxLength(nonce: bytes): nat
    requires 1 <= |nonce| <= 13
  {
    if LengthWidth(nonce) < 8 then Pow256(LengthWidth(nonce)) else 0
  }

  function CbcMac(cipher: Cmac.Cipher, key: bytes, nonce: bytes, plaintext: bytes, aad: bytes,
                  tagLength: nat): (r: Result<Block>)
  {
    if |key| != 16 then Err(UnsupportedCapability)
    else if nonce == [] || |nonce| > 13 then Err(ProtocolUnsupported)
    else if tagLength < 4 || tagLength > 16 || tagLength % 2 != 0 then Err(ProtocolUnsupported)
    else if |plaintext| >= MaxLength(nonce) then Err(ProtocolUnsupported)
    else if |aad| >= AAD_LIMIT then Err(ProtocolUnsupported)
    else Ok(Chain(cipher, key, Zeros(16), Format(nonce, plaintext, aad, tagLength)))
  }

  /** A MAC comes out exactly for a 16-byte key and valid parameters; in
      particular only for nonces of 8 to 13 bytes. */
  lemma CbcMacAccepts(cipher: Cmac.Cipher, key: bytes, nonce: bytes, plaintext: bytes, aad: bytes,
                      tagLength: nat)
    ensures CbcMac(cipher, key, nonce, plaintext, aad, tagLength).Ok? <==>
            |key| == 16 && ValidParameters(nonce, plaintext, aad, tagLength)
    ensures ValidParameters(nonce, plaintext, aad, tagLength) <==>
            && 8 <= |nonce| <= 13 && tagLength in {4, 6, 8, 10, 12, 14, 16}
            && |plaintext| < Pow256(15 - |nonce|) && |aad| < 0xFF00
  {
  }

  /** First block of data from `at`, zero-filled past the end. */
  function BlockAt(data: bytes, at: nat): Block
    requires at < |data|
  {
    if at + 16 <= |data| then data[at..at + 16] else data[at..] + Zeros(16 - (|data| - at))
  }

  function Rest(data: bytes, at: nat): bytes {
    if at <= |data| then data[at..] else []
  }

  lemma RestEnds(data: bytes)
    ensures Rest(data, 0) == data && forall at | at >= |data| :: Rest(data, at) == []
  {
  }

  lemma ChainStep(cipher: Cmac.Cipher, key: Block, state: Block, data: bytes, at: nat)
    requires at < |data|
    ensures Chain(cipher, key, state, PadToBlock(Rest(data, at))) ==
            Chain(cipher, key, cipher(key, XorBytes(state, BlockAt(data, at))), PadToBlock(Rest(data, at + 16)))
  {
    hide *;
    PaddedSplit(data, at);
    ChainBlock(cipher, key, state, BlockAt(data, at), PadToBlock(Rest(data, at + 16)));
  }

  lemma PaddedSplit(data: bytes, at: nat)
    requires at < |data|
    ensures PadToBlock(Rest(data, at)) == BlockAt(data, at) + PadToBlock(Rest(data, at + 16))
    ensures |PadToBlock(Rest(data, at + 16))| % 16 == 0 && |PadToBlock(Rest(data, at))| % 16 == 0
  {
    hide PadToBlock;
    if at + 16 <= |data| {
      assert data[at..] == data[at..at + 16] + data[at + 16..];
      PadBehindBlock(data[at..at + 16], data[at + 16..]);
    } else {
      LastPadded(data[at..]);
      LastPadded([]);
    }
  }

  lemma PadBehindBlock(b: Block, rest: bytes)
    ensures PadToBlock(b + rest) == b + PadToBlock(rest)
  {
    assert RoundUp16(16 + |rest|) == 16 + RoundUp16(|rest|);
    var zeros := Zeros(RoundUp16(|rest|) - |rest|);
    assert b + rest + zeros == b + (rest + zeros);
  }

  lemma LastPadded(tail: bytes)
    requires |tail| < 16
    ensures PadToBlock(tail) == if tail == [] then [] else tail + Zeros(16 - |tail|)
  {
    if tail != [] { assert RoundUp16(|tail|) == 16; }
  }

  lemma ChainBlock(cipher: Cmac.Cipher, key: Block, state: Block, b: Block, rest: bytes)
    requires |rest| % 16 == 0
    ensures Chain(cipher, key, state, b + rest) == Chain(cipher, key, cipher(key, XorBytes(state, b)), rest)
  {
    hide XorBytes;
    assert (b + rest)[..16] == b && (b + rest)[16..] == rest;
  }

  /** The chaining loop over a byte string whose last block may be short. */
  method ChainBytes(cipher: Cmac.Cipher, key: Block, start: Block, data: bytes) returns (state: Block)
    ensures state == Chain(cipher, key, start, PadToBlock(data))
  {
    state := start;
    var offset := 0;
    assert Rest(data, 0) == data;
    while offset < |data|
      invariant Chain(cipher, key, state, PadToBlock(Rest(data, offset)))
             == Chain(cipher, key, start, PadToBlock(data))
    {
      ChainStep(cipher, key, state, data, offset);
      state := cipher(key, XorBytes(state, BlockAt(data, offset)));
      offset := offset + 16;
    }
    assert PadToBlock(Rest(data, offset)) == [];
  }

  method CbcMacBytes(cipher: Cmac.Cipher, key: bytes, nonce: bytes, plaintext: bytes, aad: bytes,
                     tagLength: nat) returns (r: Result<Block>)
    ensures r == CbcMac(cipher, key, nonce, plaintext, aad, tagLength)
  {
    hide Chain, Format, PadToBlock, XorBytes, FlagsByte, Be;
    if |key| != 16 { return Err(UnsupportedCapability); }
    if nonce == [] || |nonce| > 13 { return Err(ProtocolUnsupported); }
    if tagLength < 4 || tagLength > 16 || tagLength % 2 != 0 { return Err(ProtocolUnsupported); }
    var maxLength := ShiftedLimit(nonce);
    if |plaintext| >= maxLength { return Err(ProtocolUnsupported); }
    var b0 := LengthBlock(FlagsByte(aad != [], tagLength, LengthWidth(nonce)), nonce, |plaintext|);
    var state := cipher(key, b0);
    var formatted := FormatAadBytes(aad);
    if aad != [] && formatted == [] { return Err(ProtocolUnsupported); }
    ghost var afterB0 := state;
    state := ChainBytes(cipher, key, state, formatted);
    state := ChainBytes(cipher, key, state, plaintext);
    PadAligned(formatted);
    ChainOfFormat(cipher, key, nonce, plaintext, aad, tagLength);
    r := Ok(state);
  }

  lemma PadAligned(b: bytes)
    requires |b| % 16 == 0
    ensures PadToBlock(b) == b
  {
  }

  lemma ChainOfFormat(cipher: Cmac.Cipher, key: Block, nonce: bytes, plaintext: bytes, aad: bytes, tagLength: nat)
    requires ValidParameters(nonce, plaintext, aad, tagLength)
    ensures Chain(cipher, key, Zeros(16), Format(nonce, plaintext, aad, tagLength)) ==
            Chain(cipher, key,
                  Chain(cipher, key, cipher(key, B0(nonce, |plaintext|, aad != [], tagLength)), FormatAad(aad)),
                  PadToBlock(plaintext))
  {
    hide B0, FormatAad, PadToBlock, XorBytes;
    var b0 := B0(nonce, |plaintext|, aad != [], tagLength);
    ChainConcat(cipher, key, Zeros(16), b0 + FormatAad(aad), PadToBlock(plaintext));
    ChainConcat(cipher, key, Zeros(16), b0, FormatAad(aad));
    assert XorBytes(Zeros(16), b0) == b0 by { XorZero(b0); }
    assert b0[..16] == b0 && b0[16..] == [];
    assert Chain(cipher, key, cipher(key, b0), []) == cipher(key, b0);
  }

  lemma {:induction false} ZeroXorBits(w: nat, a: nat)
    requires a < Pow2(w)
    ensures XorBits(w, 0, a) == a
    decreases w
  {
    if w > 0 { ZeroXorBits(w - 1, a / 2); }
  }

  lemma XorZero(b: bytes)
    ensures XorBytes(Zeros(|b|), b) == b
  {
    Pow2Of8();
    forall i | 0 <= i < |b| ensures XorBytes(Zeros(|b|), b)[i] == b[i] {
      ZeroXorBits(8, b[i]);
    }
  }

  method ShiftedLimit(nonce: bytes) returns (maxLength: nat)
    requires 1 <= |nonce| <= 13
    ensures maxLength == MaxLength(nonce)
  {
    var width := 15 - |nonce|;
    maxLength := 1;
    Pow256Values();
    var i := 0;
    while i < width
      invariant 0 <= i <= width
      invariant maxLength == if i < 8 then Pow256(i) else 0
    {
      if i < 7 { Pow256Monotone(i + 1, 7); }
      maxLength := maxLength * 256 % 0x1_0000_0000_0000_0000;
      i := i + 1;
    }
  }

  // --------------------------------------------------------- counter blocks

  function CounterBlock(nonce: bytes, counter: nat): Block
    requires |nonce| <= 15
  {
    [(LengthWidth(nonce) - 1) % 8] + nonce + Be(counter, LengthWidth(nonce))
  }

  /** Fills a block from both ends: flags and nonce from the left, the number
      byte by byte from the right. */
  method LengthBlock(flags: byte, nonce: bytes, number: nat) returns (block: Block)
    requires |nonce| <= 15
    ensures block == [flags] + nonce + Be(number, LengthWidth(nonce))
  {
    var width := 15 - |nonce|;
    var rest := number;
    var tail: bytes := [];
    var i := 0;
    while i < width
      invariant 0 <= i <= width && |tail| == i
      invariant Be(number, width) == Be(rest, width - i) + tail
    {
      assert Be(rest, width - i) == Be(rest / 256, width - i - 1) + [rest % 256];
      tail := [rest % 256] + tail;
      rest := rest / 256;
      i := i + 1;
    }
    block := [flags] + nonce + tail;
  }

  // --------------------------------------------------------------- CTR mode

  /** Counter-mode keystream applied from counter value `counter`. */
  function CtrFrom(cipher: Cmac.Cipher, key: Block, nonce: bytes, counter: nat, input: bytes): (r: bytes)
    requires |nonce| <= 15
    ensures |r| == |input|
    decreases |input|
  {
    if input == [] then []
    else
      var count := if |input| < 16 then |input| else 16;
      XorBytes(input[..count], cipher(key, CounterBlock(nonce, counter)))
      + CtrFrom(cipher, key, nonce, counter + 1, input[count..])
  }

  function Crypt(cipher: Cmac.Cipher, key: Block, nonce: bytes, input: bytes): bytes
    requires |nonce| <= 15
  {
    CtrFrom(cipher, key, nonce, 1, input)
  }

  lemma CtrStep(cipher: Cmac.Cipher, key: Block, nonce: bytes, counter: nat, input: bytes, at: nat)
    requires |nonce| <= 15 && at < |input|
    ensures var count := if |input| - at < 16 then |input| - at else 16;
            CtrFrom(cipher, key, nonce, counter, Rest(input, at)) ==
            XorBytes(input[at..at + count], cipher(key, CounterBlock(nonce, counter)))
            + CtrFrom(cipher, key, nonce, counter + 1, Rest(input, at + 16))
  {
    var count := if |input| - at < 16 then |input| - at else 16;
    assert input[at..][..count] == input[at..at + count];
    assert input[at..][count..] == Rest(input, at + 16);
  }

  method CryptBytes(cipher: Cmac.Cipher, key: Block, nonce: bytes, input: bytes) returns (output: bytes)
    requires |nonce| <= 15
    ensures output == Crypt(cipher, key, nonce, input)
  {
    hide CtrFrom, Rest, XorBytes, CounterBlock;
    output := [];
    var counter, offset := 1, 0;
    RestEnds(input);
    while offset < |input|
      invariant output + CtrFrom(cipher, key, nonce, counter, Rest(input, offset))
             == CtrFrom(cipher, key, nonce, 1, input)
    {
      CtrStep(cipher, key, nonce, counter, input, offset);
      ghost var later := CtrFrom(cipher, key, nonce, counter + 1, Rest(input, offset + 16));
      var stream := KeystreamBlock(cipher, key, nonce, counter);
      var count := if |input| - offset < 16 then |input| - offset else 16;
      var block := XorBytes(input[offset..offset + count], stream);
      assert output + (block + later) == (output + block) + later;
      output := output + block;
      offset, counter := offset + 16, counter + 1;
    }
  }

  method KeystreamBlock(cipher: Cmac.Cipher, key: Block, nonce: bytes, counter: nat) returns (stream: Block)
    requires |nonce| <= 15
    ensures stream == cipher(key, CounterBlock(nonce, counter))
  {
    var block := LengthBlock((LengthWidth(nonce) - 1) % 8, nonce, counter);
    stream := cipher(key, block);
  }

  lemma {:induction false} CtrInvolution(cipher: Cmac.Cipher, key: Block, nonce: bytes, counter: nat, input: bytes)
    requires |nonce| <= 15
    ensures CtrFrom(cipher, key, nonce, counter, CtrFrom(cipher, key, nonce, counter, input)) == input
    decreases |input|
  {
    if input != [] {
      var count := if |input| < 16 then |input| else 16;
      var stream := cipher(key, CounterBlock(nonce, counter));
      var once := CtrFrom(cipher, key, nonce, counter, input);
      assert once[..count] == XorBytes(input[..count], stream);
      assert once[count..] == CtrFrom(cipher, key, nonce, counter + 1, input[count..]);
      XorBytesCancel(input[..count], stream);
      CtrInvolution(cipher, key, nonce, counter + 1, input[count..]);
      assert input == input[..count] + input[count..];
    }
  }

  // ------------------------------------------------------ authenticated mode

  function TagMask(cipher: Cmac.Cipher, key: Block, nonce: bytes): Block
    requires |nonce| <= 15
  {
    cipher(key, CounterBlock(nonce, 0))
  }

  function Encrypt(cipher: Cmac.Cipher, key: bytes, nonce: bytes, plaintext: bytes, aad: bytes,
                   tagLength: nat): (r: Result<Sealed>)
  {
    match CbcMac(cipher, key, nonce, plaintext, aad, tagLength)
    case Err(e) => Err(e)
    case Ok(mac) =>
      Ok(Sealed(Crypt(cipher, key, nonce, plaintext),
                XorBytes(mac[..tagLength], TagMask(cipher, key, nonce))))
  }

  /** The implementation decrypts before it checks its parameters, so it needs
      16 key bytes to read and a nonce that fits in a block. */
  function Decrypt(cipher: Cmac.Cipher, key: bytes, nonce: bytes, ciphertext: bytes, aad: bytes,
                   tag: bytes): (r: Result<bytes>)
    requires |key| >= 16 && |nonce| <= 15
  {
    var plaintext := Crypt(cipher, key[..16], nonce, ciphertext);
    match Encrypt(cipher, key, nonce, plaintext, aad, |tag|)
    case Err(e) => Err(e)
    case Ok(sealed) => if sealed.tag != tag then Err(ProtocolUnsupported) else Ok(plaintext)
  }

  method EncryptBytes(cipher: Cmac.Cipher, key: bytes, nonce: bytes, plaintext: bytes, aad: bytes,
                      tagLength: nat) returns (r: Result<Sealed>)
    ensures r == Encrypt(cipher, key, nonce, plaintext, aad, tagLength)
  {
    var mac := CbcMacBytes(cipher, key, nonce, plaintext, aad, tagLength);
    if mac.Err? { return Err(mac.code); }
    var mask := KeystreamBlock(cipher, key, nonce, 0);
    var ciphertext := CryptBytes(cipher, key, nonce, plaintext);
    var tag: bytes := [];
    var i := 0;
    while i < tagLength
      invariant 0 <= i <= tagLength && |tag| == i
      invariant forall j | 0 <= j < i :: tag[j] == Xor(mac.value[j], mask[j])
    {
      tag := tag + [Xor(mac.value[i], mask[i])];
      i := i + 1;
    }
    assert tag == XorBytes(mac.value[..tagLength], mask);
    r := Ok(Sealed(ciphertext, tag));
  }

  method DecryptBytes(cipher: Cmac.Cipher, key: bytes, nonce: bytes, ciphertext: bytes, aad: bytes,
                      tag: bytes) returns (r: Result<bytes>)
    requires |key| >= 16 && |nonce| <= 15
    ensures r == Decrypt(cipher, key, nonce, ciphertext, aad, tag)
  {
    var plaintext := CryptBytes(cipher, key[..16], nonce, ciphertext);
    var encrypted := EncryptBytes(cipher, key, nonce, plaintext, aad, |tag|);
    if encrypted.Err? { return Err(encrypted.code); }
    if encrypted.value.tag != tag { return Err(ProtocolUnsupported); }
    r := Ok(plaintext);
  }

  // ------------------------------------------------------------- properties

  /** Decryption accepts (c, tag) and yields p exactly when encrypting p gives (c, tag). */
  lemma DecryptIffEncrypt(cipher: Cmac.Cipher, key: bytes, nonce: bytes, aad: bytes,
                          p: bytes, c: bytes, tag: bytes)
    requires |key| >= 16 && |nonce| <= 15
    ensures Decrypt(cipher, key, nonce, c, aad, tag) == Ok(p) <==>
            Encrypt(cipher, key, nonce, p, aad, |tag|) == Ok(Sealed(c, tag))
  {
    CtrInvolution(cipher, key[..16], nonce, 1, c);
    CtrInvolution(cipher, key[..16], nonce, 1, p);
    if |key| == 16 { assert key[..16] == key; }
  }

  /** What was encrypted is decrypted again. */
  lemma EncryptThenDecrypt(cipher: Cmac.Cipher, key: bytes, nonce: bytes, aad: bytes, p: bytes, tagLength: nat)
    requires |key| == 16 && ValidParameters(nonce, p, aad, tagLength)
    ensures Encrypt(cipher, key, nonce, p, aad, tagLength).Ok?
    ensures var s := Encrypt(cipher, key, nonce, p, aad, tagLength).value;
            |s.tag| == tagLength && |s.ciphertext| == |p|
            && Decrypt(cipher, key, nonce, s.ciphertext, aad, s.tag) == Ok(p)
  {
    var s := Encrypt(cipher, key, nonce, p, aad, tagLength).value;
    DecryptIffEncrypt(cipher, key, nonce, aad, p, s.ciphertext, s.tag);
  }

  /** Encryption accepts exactly a 16-byte key and valid parameters. */
  lemma EncryptAccepts(cipher: Cmac.Cipher, key: bytes, nonce: bytes, plaintext: bytes, aad: bytes, tagLength: nat)
    ensures Encrypt(cipher, key, nonce, plaintext, aad, tagLength).Ok? <==>
            |key| == 16 && ValidParameters(nonce, plaintext, aad, tagLength)
  {
    hide Format, Chain;
    CbcMacAccepts(cipher, key, nonce, plaintext, aad, tagLength);
  }

  lemma {:induction false} BeInjective(a: nat, b: nat, n: nat)
    requires a < Pow256(n) && b < Pow256(n) && Be(a, n) == Be(b, n)
    ensures a == b
  {
    BeRoundTrip(a, n);
    BeRoundTrip(b, n);
  }

  /** Counter blocks of one nonce are distinct as long as the counter fits its field. */
  lemma CounterBlocksDistinct(nonce: bytes, i: nat, j: nat)
    requires |nonce| <= 15 && i < Pow256(LengthWidth(nonce)) && j < Pow256(LengthWidth(nonce))
    ensures CounterBlock(nonce, i) == CounterBlock(nonce, j) <==> i == j
  {
    var w := LengthWidth(nonce);
    assert CounterBlock(nonce, i)[1 + |nonce|..] == Be(i, w);
    assert CounterBlock(nonce, j)[1 + |nonce|..] == Be(j, w);
    if CounterBlock(nonce, i) == CounterBlock(nonce, j) { BeInjective(i, j, w); }
  }

  /** The counters 0..n used for one message all fit their field. */
  lemma CountersOfMessageFit(nonce: bytes, plaintext: bytes, aad: bytes, tagLength: nat, counter: nat)
    requires ValidParameters(nonce, plaintext, aad, tagLength) && counter <= (|plaintext| + 15) / 16
    ensures counter < Pow256(LengthWidth(nonce))
  {
    Pow256Monotone(1, LengthWidth(nonce));
  }

  /** No MAC input starts with a counter block of any nonce. */
  lemma B0IsNoCounterBlock(nonce: bytes, length: nat, hasAad: bool, tagLength: nat, other: bytes, counter: nat)
    requires 8 <= |nonce| <= 13 && 4 <= tagLength <= 16 && tagLength % 2 == 0 && |other| <= 15
    ensures B0(nonce, length, hasAad, tagLength) != CounterBlock(other, counter)
  {
    assert B0(nonce, length, hasAad, tagLength)[0] >= 8 > CounterBlock(other, counter)[0];
  }

  lemma FlagsDetermine(hasAad: bool, tagLength: nat, width: nat, hasAad': bool, width': nat)
    requires 4 <= tagLength <= 16 && tagLength % 2 == 0 && 1 <= width <= 8 && 1 <= width' <= 8
    requires FlagsByte(hasAad, tagLength, width) == FlagsByte(hasAad', tagLength, width')
    ensures hasAad == hasAad' && width == width'
  {
  }

  lemma B0Determines(nonce: bytes, length: nat, hasAad: bool,
                     nonce': bytes, length': nat, hasAad': bool, tagLength: nat)
    requires 8 <= |nonce| <= 13 && 8 <= |nonce'| <= 13 && 4 <= tagLength <= 16 && tagLength % 2 == 0
    requires length < Pow256(LengthWidth(nonce)) && length' < Pow256(LengthWidth(nonce'))
    requires B0(nonce, length, hasAad, tagLength) == B0(nonce', length', hasAad', tagLength)
    ensures nonce == nonce' && length == length' && hasAad == hasAad'
  {
    var b := B0(nonce, length, hasAad, tagLength);
    var b' := B0(nonce', length', hasAad', tagLength);
    assert b[0] == b'[0];
    FlagsDetermine(hasAad, tagLength, LengthWidth(nonce), hasAad', LengthWidth(nonce'));
    assert b[1..1 + |nonce|] == nonce && b'[1..1 + |nonce|] == nonce';
    assert b[1 + |nonce|..] == Be(length, LengthWidth(nonce));
    assert b'[1 + |nonce|..] == Be(length', LengthWidth(nonce));
    BeInjective(length, length', LengthWidth(nonce));
  }

  lemma AadDetermines(f: bytes, aad: bytes, aad': bytes)
    requires aad != [] && aad' != [] && |aad| < AAD_LIMIT && |aad'| < AAD_LIMIT
    requires FormatAad(aad) <= f && FormatAad(aad') <= f
    ensures aad == aad'
  {
    var g, g' := FormatAad(aad), FormatAad(aad');
    SliceOfPrefix(g, f, 0, 2);
    SliceOfPrefix(g', f, 0, 2);
    assert g[0..2] == Be(|aad|, 2) && g'[0..2] == Be(|aad'|, 2);
    Pow256Values();
    BeInjective(|aad|, |aad'|, 2);
    SliceOfPrefix(g, f, 2, 2 + |aad|);
    SliceOfPrefix(g', f, 2, 2 + |aad|);
    assert g[2..2 + |aad|] == aad && g'[2..2 + |aad|] == aad';
  }

  lemma FormatSlices(b0: bytes, a: bytes, p: bytes)
    requires |b0| == 16
    ensures var f := b0 + a + PadToBlock(p);
            && f[0..16] == b0 && f[16..] == a + PadToBlock(p)
            && f[16 + |a|..16 + |a| + |p|] == p
  {
  }

  lemma AadPartDetermines(a: bytes, a': bytes, p: bytes, p': bytes, aad: bytes, aad': bytes)
    requires |aad| < AAD_LIMIT && |aad'| < AAD_LIMIT && (aad == [] <==> aad' == [])
    requires a == FormatAad(aad) && a' == FormatAad(aad')
    requires a + PadToBlock(p) <= a' + PadToBlock(p')
    ensures aad == aad'
  {
    if aad != [] {
      var f, f' := a + PadToBlock(p), a' + PadToBlock(p');
      assert f' == f + f'[|f|..];
      assert f' == a + (PadToBlock(p) + f'[|f|..]);
      AadDetermines(f', aad, aad');
    }
  }

  /** The formatting is prefix-free, hence injective: for one tag length, if the
      block string of one message starts that of another, then nonce, AAD and
      plaintext are the same. */
  lemma FormatPrefixFree(nonce: bytes, p: bytes, aad: bytes, nonce': bytes, p': bytes, aad': bytes, tagLength: nat)
    requires ValidParameters(nonce, p, aad, tagLength) && ValidParameters(nonce', p', aad', tagLength)
    requires Format(nonce, p, aad, tagLength) <= Format(nonce', p', aad', tagLength)
    ensures nonce == nonce' && p == p' && aad == aad'
  {
    var f, f' := Format(nonce, p, aad, tagLength), Format(nonce', p', aad', tagLength);
    var b0, b0' := B0(nonce, |p|, aad != [], tagLength), B0(nonce', |p'|, aad' != [], tagLength);
    var a, a' := FormatAad(aad), FormatAad(aad');
    FormatSlices(b0, a, p);
    FormatSlices(b0', a', p');
    SliceOfPrefix(f, f', 0, 16);
    B0Determines(nonce, |p|, aad != [], nonce', |p'|, aad' != [], tagLength);
    TailOfPrefix(f, f', 16);
    AadPartDetermines(a, a', p, p', aad, aad');
    SliceOfPrefix(f, f', 16 + |a|, 16 + |a| + |p|);
  }

  lemma TailOfPrefix(f: bytes, f': bytes, n: nat)
    requires f <= f' && n <= |f|
    ensures f[n..] <= f'[n..]
  {
    SliceOfPrefix(f, f', n, |f|);
    assert f[n..] == f[n..|f|];
    assert f'[n..][..|f| - n] == f'[n..|f|];
  }

  // ------------------------- the mode byte by byte, as RFC 3610 describes it

  /** Byte `i` of counter mode from `counter` on is masked by byte i mod 16 of the
      encrypted counter block number i / 16. */
  lemma {:induction false} CtrByte(cipher: Cmac.Cipher, key: Block, nonce: bytes, counter: nat, input: bytes, i: nat)
    requires |nonce| <= 15 && i < |input|
    ensures CtrFrom(cipher, key, nonce, counter, input)[i]
         == Xor(input[i], cipher(key, CounterBlock(nonce, counter + i / 16))[i % 16])
    decreases |input|
  {
    hide CounterBlock, Xor, XorBytes, CtrFrom;
    var count := if |input| < 16 then |input| else 16;
    CtrStep(cipher, key, nonce, counter, input, 0);
    assert Rest(input, 0) == input && Rest(input, 16) == input[count..] && input[0..count] == input[..count];
    var first := XorBytes(input[..count], cipher(key, CounterBlock(nonce, counter)));
    var rest := CtrFrom(cipher, key, nonce, counter + 1, input[count..]);
    assert CtrFrom(cipher, key, nonce, counter, input) == first + rest;
    if i >= 16 {
      CtrByte(cipher, key, nonce, counter + 1, input[16..], i - 16);
      assert (first + rest)[i] == rest[i - 16];
      assert (i - 16) / 16 == i / 16 - 1 && (i - 16) % 16 == i % 16;
    } else {
      assert (first + rest)[i] == first[i];
      XorBytesAt(input[..count], cipher(key, CounterBlock(nonce, counter)), i);
    }
  }

  /** The counter block of section 2.3: flags, nonce, counter in network order. */
  lemma CounterBlockBytes(nonce: bytes, counter: nat)
    requires 8 <= |nonce| <= 13 && counter < Pow256(15 - |nonce|)
    ensures var a := CounterBlock(nonce, counter);
            a[0] == 14 - |nonce| && a[1..1 + |nonce|] == nonce && FromBe(a[1 + |nonce|..]) == counter
  {
    hide Be, FromBe, Pow256;
    BeRoundTrip(counter, 15 - |nonce|);
    var flags, tail := [(14 - |nonce|) % 8], Be(counter, 15 - |nonce|);
    assert CounterBlock(nonce, counter) == flags + nonce + tail;
    assert (flags + nonce + tail)[1 + |nonce|..] == tail;
  }

  /** Section 2.3: plaintext byte i is masked by key stream block 1 + i / 16, the tag by
      block 0. */
  lemma EncryptBytewise(cipher: Cmac.Cipher, key: bytes, nonce: bytes, plaintext: bytes, aad: bytes, tagLength: nat)
    requires |key| == 16 && ValidParameters(nonce, plaintext, aad, tagLength)
    ensures Encrypt(cipher, key, nonce, plaintext, aad, tagLength).Ok?
    ensures CbcMac(cipher, key, nonce, plaintext, aad, tagLength).Ok?
    ensures var sealed := Encrypt(cipher, key, nonce, plaintext, aad, tagLength).value;
            var mac := CbcMac(cipher, key, nonce, plaintext, aad, tagLength).value;
            && |sealed.ciphertext| == |plaintext| && |sealed.tag| == tagLength
            && (forall i | 0 <= i < |plaintext| ::
                  sealed.ciphertext[i] == Xor(plaintext[i], cipher(key, CounterBlock(nonce, 1 + i / 16))[i % 16]))
            && (forall j | 0 <= j < tagLength ::
                  sealed.tag[j] == Xor(mac[j], cipher(key, CounterBlock(nonce, 0))[j]))
  {
    hide CounterBlock, Xor, CtrFrom, Format, Chain;
    forall i | 0 <= i < |plaintext|
      ensures Crypt(cipher, key, nonce, plaintext)[i]
           == Xor(plaintext[i], cipher(key, CounterBlock(nonce, 1 + i / 16))[i % 16])
    {
      CtrByte(cipher, key, nonce, 1, plaintext, i);
    }
  }

  /** Within one message no two blocks, the tag's block 0 included, are masked by the
      same counter block, and none of them is the first block of the MAC. */
  lemma NoCounterBlockTwice(nonce: bytes, plaintext: bytes, aad: bytes, tagLength: nat, a: nat, b: nat)
    requires ValidParameters(nonce, plaintext, aad, tagLength)
    requires a <= (|plaintext| + 15) / 16 && b <= (|plaintext| + 15) / 16
    ensures CounterBlock(nonce, a) == CounterBlock(nonce, b) <==> a == b
    ensures CounterBlock(nonce, a) != B0(nonce, |plaintext|, aad != [], tagLength)
    ensures forall i | 0 <= i < |plaintext| :: 1 <= 1 + i / 16 <= (|plaintext| + 15) / 16
  {
    hide CounterBlock, B0;
    CountersOfMessageFit(nonce, plaintext, aad, tagLength, a);
    CountersOfMessageFit(nonce, plaintext, aad, tagLength, b);
    CounterBlocksDistinct(nonce, a, b);
    B0IsNoCounterBlock(nonce, |plaintext|, aad != [], tagLength, nonce, a);
  }

  /** The flags of section 2.2, bit by bit: Adata in bit 6, (M - 2) / 2 in bits 3 to 5,
      L - 1 in bits 0 to 2; bit 7 is zero. */
  lemma FlagsBits(hasAad: bool, tagLength: nat, width: nat)
    requires 4 <= tagLength <= 16 && tagLength % 2 == 0 && 1 <= width <= 8
    ensures var flags := FlagsByte(hasAad, tagLength, width);
            && (flags / 0x40 == if hasAad then 1 else 0)
            && flags / 8 % 8 == (tagLength - 2) / 2 && flags % 8 == width - 1
  {
  }

  /** What is authenticated, by its slices (section 2.2): the first block, the length of
      the additional data and the data, zeros, the plaintext, zeros. */
  lemma FormatBytes(nonce: bytes, plaintext: bytes, aad: bytes, tagLength: nat)
    requires ValidParameters(nonce, plaintext, aad, tagLength)
    ensures var f := Format(nonce, plaintext, aad, tagLength);
            var a := if aad == [] then 16 else 18 + |aad| + (14 - |aad| % 16) % 16;
            && a % 16 == 0 && a + |plaintext| <= |f| < a + |plaintext| + 16 && |f| % 16 == 0
            && f[0] == FlagsByte(aad != [], tagLength, 15 - |nonce|) && f[1..1 + |nonce|] == nonce
            && FromBe(f[1 + |nonce|..16]) == |plaintext|
            && (aad != [] ==> FromBe(f[16..18]) == |aad| && f[18..18 + |aad|] == aad
                              && forall i | 18 + |aad| <= i < a :: f[i] == 0)
            && f[a..a + |plaintext|] == plaintext && forall i | a + |plaintext| <= i < |f| :: f[i] == 0
  {
    hide *;
    FormatParts(nonce, plaintext, aad, tagLength);
    var b0, part, padded := B0(nonce, |plaintext|, aad != [], tagLength), FormatAad(aad), PadToBlock(plaintext);
    var f: bytes := b0 + part + padded;
    B0Bytes(nonce, |plaintext|, aad != [], tagLength);
    AadBytes(aad);
    PaddedBytes(plaintext);
    assert f[0] == b0[0] && f[1..1 + |nonce|] == b0[1..1 + |nonce|] && f[1 + |nonce|..16] == b0[1 + |nonce|..16];
    if aad != [] {
      assert f[16..18] == part[0..2] && f[18..18 + |aad|] == part[2..2 + |aad|];
      forall i | 18 + |aad| <= i < 16 + |part| ensures f[i] == 0 {
        assert f[i] == part[i - 16];
      }
    }
    var a := 16 + |part|;
    assert f[a..a + |plaintext|] == padded[..|plaintext|];
    forall i | a + |plaintext| <= i < |f| ensures f[i] == 0 {
      assert f[i] == padded[i - a];
    }
  }

  lemma FormatParts(nonce: bytes, plaintext: bytes, aad: bytes, tagLength: nat)
    requires ValidParameters(nonce, plaintext, aad, tagLength)
    ensures 8 <= |nonce| <= 13 && 4 <= tagLength <= 16 && tagLength % 2 == 0 && |aad| < AAD_LIMIT
    ensures |plaintext| < Pow256(15 - |nonce|)
    ensures Format(nonce, plaintext, aad, tagLength)
         == B0(nonce, |plaintext|, aad != [], tagLength) + FormatAad(aad) + PadToBlock(plaintext)
  {
    hide B0, FormatAad, PadToBlock;
  }

  lemma B0Bytes(nonce: bytes, length: nat, hasAad: bool, tagLength: nat)
    requires 8 <= |nonce| <= 13 && 4 <= tagLength <= 16 && tagLength % 2 == 0 && length < Pow256(15 - |nonce|)
    ensures var b0 := B0(nonce, length, hasAad, tagLength);
            && b0[0] == FlagsByte(hasAad, tagLength, 15 - |nonce|) && b0[1..1 + |nonce|] == nonce
            && FromBe(b0[1 + |nonce|..16]) == length
  {
    hide Be, FromBe, FlagsByte;
    BeRoundTrip(length, 15 - |nonce|);
    assert B0(nonce, length, hasAad, tagLength)[1 + |nonce|..16] == Be(length, 15 - |nonce|);
  }

  lemma PaddedBytes(b: bytes)
    ensures var padded := PadToBlock(b);
            && b <= padded && padded[..|b|] == b && |b| <= |padded| < |b| + 16 && |padded| % 16 == 0
            && forall i | |b| <= i < |padded| :: padded[i] == 0
  {
  }

  lemma AadBytes(aad: bytes)
    requires |aad| < AAD_LIMIT
    ensures var part := FormatAad(aad);
            if aad == [] then part == []
            else
              && |part| == 2 + |aad| + (14 - |aad| % 16) % 16 && FromBe(part[0..2]) == |aad|
              && part[2..2 + |aad|] == aad && forall i | 2 + |aad| <= i < |part| :: part[i] == 0
  {
    hide Be, FromBe, PadToBlock;
    if aad != [] {
      Pow256Values();
      BeRoundTrip(|aad|, 2);
      var unpadded := Be(|aad|, 2) + aad;
      var part := PadToBlock(unpadded);
      PaddedBytes(unpadded);
      SliceOfPrefix(unpadded, part, 0, 2);
      SliceOfPrefix(unpadded, part, 2, 2 + |aad|);
      assert unpadded[0..2] == Be(|aad|, 2) && unpadded[2..2 + |aad|] == aad;
    }
  }

  /** The chaining states over a block string: zero, then each block exclusive-ored in
      and encrypted. */
  ghost predicate Chains(cipher: Cmac.Cipher, key: Block, data: bytes, states: seq<Block>)
    requires |data| % 16 == 0
  {
    && |states| == |data| / 16 + 1 && (forall j | 0 <= j < 16 :: states[0][j] == 0)
    && forall i | 0 <= i < |data| / 16 ::
         states[i + 1] == cipher(key, XorBytes(states[i], data[16 * i..16 * i + 16]))
  }

  lemma {:induction false} ChainStates(cipher: Cmac.Cipher, key: Block, state: Block, data: bytes)
      returns (states: seq<Block>)
    requires |data| % 16 == 0
    ensures |states| == |data| / 16 + 1 && states[0] == state
    ensures forall i | 0 <= i < |data| / 16 ::
      states[i + 1] == cipher(key, XorBytes(states[i], data[16 * i..16 * i + 16]))
    ensures states[|states| - 1] == Chain(cipher, key, state, data)
    decreases |data|
  {
    hide XorBytes;
    if data == [] {
      states := [state];
    } else {
      var rest := ChainStates(cipher, key, cipher(key, XorBytes(state, data[..16])), data[16..]);
      states := [state] + rest;
      forall i | 0 <= i < |data| / 16
        ensures states[i + 1] == cipher(key, XorBytes(states[i], data[16 * i..16 * i + 16]))
      {
        if i > 0 {
          assert states[i] == rest[i - 1] && states[i + 1] == rest[i];
          assert data[16..][16 * (i - 1)..16 * (i - 1) + 16] == data[16 * i..16 * i + 16];
        }
      }
    }
  }

  /** Section 2.2: the MAC is the last chaining state over the formatted message. */
  lemma MacIsLastState(cipher: Cmac.Cipher, key: bytes, nonce: bytes, plaintext: bytes, aad: bytes, tagLength: nat)
      returns (states: seq<Block>)
    requires |key| == 16 && ValidParameters(nonce, plaintext, aad, tagLength)
    ensures Chains(cipher, key, Format(nonce, plaintext, aad, tagLength), states)
    ensures CbcMac(cipher, key, nonce, plaintext, aad, tagLength) == Ok(states[|states| - 1])
  {
    hide Chain, Format;
    states := ChainStates(cipher, key, Zeros(16), Format(nonce, plaintext, aad, tagLength));
  }
}
