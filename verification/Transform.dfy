/** The SMB3 transform (section 2.2.41 of MS-SMB2): encryption of whole Direct
    TCP frames, and the transport that numbers its nonces. */
module Transform {
  import opened Bytes
  import opened Framing
  import Cmac
  import Ccm

  const TRANSFORM_ID: nat := 0x424D_53FD
  const TRANSFORM_SIZE: nat := 52
  const AES_128_CCM: nat := 1

  predicate Supported(d: Dialect) { d.Smb300? || d.Smb302? }

  /** Transform header with the 16-byte tag slot at offset 4 filled by `tag`. */
  function TransformHeader(tag: bytes, nonce: Block, size: nat, sessionId: nat): (r: bytes)
    requires |tag| == 16
    ensures |r| == TRANSFORM_SIZE
  {
    Le(TRANSFORM_ID, 4) + tag + nonce + Le(size, 4) + Le(0, 2) + Le(AES_128_CCM, 2) + Le(sessionId, 8)
  }

  function Aad(header: bytes): bytes
    requires |header| >= TRANSFORM_SIZE
  {
    header[20..52]
  }

  function EncryptFrame(cipher: Cmac.Cipher, frame: bytes, key: bytes, sessionId: u64, nonce: Block,
                        dialect: Dialect): Result<bytes>
  {
    if !Supported(dialect) then Err(UnsupportedCapability)
    else match DecodePayload(frame)
      case Err(e) => Err(e)
      case Ok(payload) =>
        var blank := TransformHeader(Zeros(16), nonce, |payload|, sessionId);
        match Ccm.Encrypt(cipher, key, nonce[..11], payload, Aad(blank), 16)
        case Err(e) => Err(e)
        case Ok(sealed) => EncodeFrame(blank[..4] + sealed.tag + blank[20..] + sealed.ciphertext)
  }

  function DecryptFrame(cipher: Cmac.Cipher, frame: bytes, key: bytes, sessionId: u64,
                        dialect: Dialect): Result<bytes>
    requires |key| >= 16
  {
    if !Supported(dialect) then Err(UnsupportedCapability)
    else match DecodePayload(frame)
      case Err(e) => Err(e)
      case Ok(payload) =>
        if |payload| < TRANSFORM_SIZE || ReadU32(payload, 0) != TRANSFORM_ID then Err(ProtocolUnsupported)
        else if ReadU16(payload, 42) != AES_128_CCM then Err(UnsupportedCapability)
        else if ReadU64(payload, 44) != sessionId then Err(ProtocolUnsupported)
        else match Ccm.Decrypt(cipher, key, payload[20..31], payload[52..], Aad(payload), payload[4..20])
          case Err(e) => Err(e)
          case Ok(plaintext) =>
            if |plaintext| != ReadU32(payload, 36) then Err(ProtocolUnsupported) else EncodeFrame(plaintext)
  }

  // ------------------------------------------------------------- properties

  lemma HeaderParts(p0: bytes, tag: bytes, nonce: bytes, p3: bytes, p4: bytes, p5: bytes, p6: bytes, rest: bytes)
    requires |p0| == 4 && |tag| == 16 && |nonce| == 16 && |p3| == 4 && |p4| == 2 && |p5| == 2 && |p6| == 8
    ensures var b := p0 + tag + nonce + p3 + p4 + p5 + p6;
            && b[..4] == p0 && b[20..] == b[20..52] == nonce + p3 + p4 + p5 + p6
    ensures var c := p0 + tag + (nonce + p3 + p4 + p5 + p6) + rest;
            && c[0..4] == p0 && c[4..20] == tag && c[20..31] == nonce[..11] && c[36..40] == p3
            && c[42..44] == p5 && c[44..52] == p6
            && c[20..52] == nonce + p3 + p4 + p5 + p6 && c[52..] == rest
  {
  }

  /** The fields the receiver reads out of an encrypted payload. */
  lemma SealedFields(tag: bytes, nonce: Block, size: u32, sessionId: u64, rest: bytes)
    requires |tag| == 16
    ensures var blank := TransformHeader(Zeros(16), nonce, size, sessionId);
            var c := blank[..4] + tag + blank[20..] + rest;
            && |c| == TRANSFORM_SIZE + |rest|
            && ReadU32(c, 0) == TRANSFORM_ID && ReadU16(c, 42) == AES_128_CCM && ReadU64(c, 44) == sessionId
            && ReadU32(c, 36) == size && c[4..20] == tag && c[20..31] == nonce[..11]
            && Aad(c) == Aad(blank) && c[52..] == rest
  {
    Pow256Values();
    HeaderParts(Le(TRANSFORM_ID, 4), Zeros(16), nonce, Le(size, 4), Le(0, 2), Le(AES_128_CCM, 2),
                Le(sessionId, 8), rest);
    HeaderParts(Le(TRANSFORM_ID, 4), tag, nonce, Le(size, 4), Le(0, 2), Le(AES_128_CCM, 2),
                Le(sessionId, 8), rest);
    LeRoundTrip(TRANSFORM_ID, 4);
    LeRoundTrip(size, 4);
    LeRoundTrip(AES_128_CCM, 2);
    LeRoundTrip(sessionId, 8);
  }

  lemma PayloadFitsCcm(payload: bytes, nonce: Block, aad: bytes)
    requires |payload| <= MAX_PAYLOAD && |aad| == 32
    ensures Ccm.ValidParameters(nonce[..11], payload, aad, 16)
  {
    Pow256Values();
  }

  /** Under a 16-byte key a frame is encrypted exactly when its payload leaves
      room for the 52-byte transform header; then decrypting under the same key,
      session and dialect returns the re-encoded payload. */
  lemma TransformRoundTrip(cipher: Cmac.Cipher, frame: bytes, key: bytes, sessionId: u64, nonce: Block,
                           dialect: Dialect)
    requires Supported(dialect) && |key| == 16 && DecodePayload(frame).Ok?
    ensures var payload := DecodePayload(frame).value;
            var sent := EncryptFrame(cipher, frame, key, sessionId, nonce, dialect);
            if |payload| + TRANSFORM_SIZE <= MAX_PAYLOAD
            then sent.Ok? && DecryptFrame(cipher, sent.value, key, sessionId, dialect) == EncodeFrame(payload)
            else sent == Err(InvalidArgument)
  {
    PayloadReencodes(frame);
    var payload := DecodePayload(frame).value;
    var blank := TransformHeader(Zeros(16), nonce, |payload|, sessionId);
    PayloadFitsCcm(payload, nonce, Aad(blank));
    Ccm.EncryptThenDecrypt(cipher, key, nonce[..11], Aad(blank), payload, 16);
    var sealed := Ccm.Encrypt(cipher, key, nonce[..11], payload, Aad(blank), 16).value;
    SealedFields(sealed.tag, nonce, |payload|, sessionId, sealed.ciphertext);
    if |payload| + TRANSFORM_SIZE <= MAX_PAYLOAD {
      FrameRoundTrip(blank[..4] + sealed.tag + blank[20..] + sealed.ciphertext);
    }
  }

  /** A frame is accepted exactly when its header fields are right and its tag and
      ciphertext are what CCM makes of the plaintext under the received nonce and
      the received header bytes. */
  lemma AcceptedIffSealed(cipher: Cmac.Cipher, frame: bytes, key: bytes, sessionId: u64, dialect: Dialect, p: bytes)
    requires Supported(dialect) && |key| >= 16 && |p| <= MAX_PAYLOAD
    ensures DecryptFrame(cipher, frame, key, sessionId, dialect) == EncodeFrame(p) <==>
            && DecodePayload(frame).Ok?
            && var c := DecodePayload(frame).value;
               && |c| >= 52 && c[0..4] == [0xFD, 0x53, 0x4D, 0x42] && ReadU16(c, 42) == 1
               && ReadU64(c, 44) == sessionId && ReadU32(c, 36) == |p|
               && Ccm.Encrypt(cipher, key, c[20..31], p, c[20..52], 16) == Ok(Ccm.Sealed(c[52..], c[4..20]))
  {
    if DecodePayload(frame).Ok? {
      PayloadReencodes(frame);
      var c := DecodePayload(frame).value;
      if |c| >= TRANSFORM_SIZE {
        ProtocolId(c);
        var unsealed := Ccm.Decrypt(cipher, key, c[20..31], c[52..], Aad(c), c[4..20]);
        if unsealed.Ok? {
          Ccm.DecryptIffEncrypt(cipher, key, c[20..31], Aad(c), unsealed.value, c[52..], c[4..20]);
          assert |unsealed.value| <= MAX_PAYLOAD;
          FrameRoundTrip(unsealed.value);
        }
        FrameRoundTrip(p);
        Ccm.DecryptIffEncrypt(cipher, key, c[20..31], Aad(c), p, c[52..], c[4..20]);
      }
    }
  }

  lemma ProtocolId(c: bytes)
    requires |c| >= 4
    ensures ReadU32(c, 0) == TRANSFORM_ID <==> c[0..4] == [0xFD, 0x53, 0x4D, 0x42]
  {
    ReadBytes(c, 0);
  }

  /** The frame put on the wire, by the slices of its payload (section 2.2.41 of MS-SMB2):
      FD S M B, tag, nonce, size, zeros, algorithm 1, session, ciphertext. Nonce, size and
      what follows up to the ciphertext are authenticated. */
  lemma SealedBytes(cipher: Cmac.Cipher, frame: bytes, key: bytes, sessionId: u64, nonce: Block, dialect: Dialect)
    requires EncryptFrame(cipher, frame, key, sessionId, nonce, dialect).Ok?
    ensures DecodePayload(frame).Ok? && dialect in {Smb300, Smb302}
    ensures DecodePayload(EncryptFrame(cipher, frame, key, sessionId, nonce, dialect).value).Ok?
    ensures var payload := DecodePayload(frame).value;
            var c := DecodePayload(EncryptFrame(cipher, frame, key, sessionId, nonce, dialect).value).value;
            && |c| == 52 + |payload| && c[0..4] == [0xFD, 0x53, 0x4D, 0x42] && c[20..36] == nonce
            && c[36..40] == Le(|payload|, 4) && c[40..44] == [0, 0, 1, 0] && c[44..52] == Le(sessionId, 8)
            && Ccm.Encrypt(cipher, key, nonce[..11], payload, c[20..52], 16) == Ok(Ccm.Sealed(c[52..], c[4..20]))
  {
    hide Ccm.Encrypt, Le, DecodePayload, EncodeFrame;
    PayloadReencodes(frame);
    var payload := DecodePayload(frame).value;
    var blank := TransformHeader(Zeros(16), nonce, |payload|, sessionId);
    PayloadFitsCcm(payload, nonce, Aad(blank));
    Ccm.EncryptAccepts(cipher, key, nonce[..11], payload, Aad(blank), 16);
    Ccm.EncryptThenDecrypt(cipher, key, nonce[..11], Aad(blank), payload, 16);
    var sealed := Ccm.Encrypt(cipher, key, nonce[..11], payload, Aad(blank), 16).value;
    var c := blank[..4] + sealed.tag + blank[20..] + sealed.ciphertext;
    EncodedPayload(c);
    TransformConstants();
    HeaderParts(Le(TRANSFORM_ID, 4), Zeros(16), nonce, Le(|payload|, 4), Le(0, 2), Le(AES_128_CCM, 2),
                Le(sessionId, 8), sealed.ciphertext);
    HeaderParts(Le(TRANSFORM_ID, 4), sealed.tag, nonce, Le(|payload|, 4), Le(0, 2), Le(AES_128_CCM, 2),
                Le(sessionId, 8), sealed.ciphertext);
    RestParts(c, nonce, Le(|payload|, 4), Le(0, 2), Le(AES_128_CCM, 2), Le(sessionId, 8));
  }

  lemma RestParts(c: bytes, nonce: bytes, p3: bytes, p4: bytes, p5: bytes, p6: bytes)
    requires |c| >= 52 && |nonce| == 16 && |p3| == 4 && |p4| == 2 && |p5| == 2 && |p6| == 8
    requires c[20..52] == nonce + p3 + p4 + p5 + p6
    ensures c[20..36] == nonce && c[36..40] == p3 && c[40..44] == p4 + p5 && c[44..52] == p6
  {
    SliceOfSlice(c, 20, 52, 20, 36);
    SliceOfSlice(c, 20, 52, 36, 40);
    SliceOfSlice(c, 20, 52, 40, 44);
    SliceOfSlice(c, 20, 52, 44, 52);
  }

  lemma EncodedPayload(c: bytes)
    ensures EncodeFrame(c).Ok? ==> DecodePayload(EncodeFrame(c).value) == Ok(c)
  {
    if EncodeFrame(c).Ok? { FrameRoundTrip(c); }
  }

  lemma TransformConstants()
    ensures Le(TRANSFORM_ID, 4) == [0xFD, 0x53, 0x4D, 0x42] && Le(0, 2) + Le(AES_128_CCM, 2) == [0, 0, 1, 0]
  {
    assert Le(0x42, 1) == [0x42] && Le(0x424D, 2) == [0x4D, 0x42] && Le(0x424D_53, 3) == [0x53, 0x4D, 0x42];
    assert Le(0, 1) == [0] && Le(0, 2) == [0, 0] && Le(1, 2) == [1, 0];
  }

  /** Headers with equal additional data agree on bytes 20 to 51, and on no others. */
  lemma AadDetermines(h: bytes, h': bytes)
    requires |h| >= 52 && |h'| >= 52
    ensures Aad(h) == Aad(h') <==> forall i | 20 <= i < 52 :: h[i] == h'[i]
  {
    if Aad(h) == Aad(h') {
      forall i | 20 <= i < 52 ensures h[i] == h'[i] {
        assert Aad(h)[i - 20] == Aad(h')[i - 20];
      }
    }
  }

  // ----------------------------------------------------------------- nonces

  const TWO_64: nat := 0x1_0000_0000_0000_0000

  /** Nonce made from a counter value: eight little-endian bytes, then zeros. */
  function NonceOf(counter: nat): Block {
    Le(counter, 8) + Zeros(8)
  }

  lemma NonceBytes(counter: nat)
    ensures forall i | 0 <= i < 16 :: NonceOf(counter)[i] == if i < 8 then counter / Pow256(i) % 256 else 0
  {
    hide Le;
    forall i | 0 <= i < 8 ensures NonceOf(counter)[i] == counter / Pow256(i) % 256 {
      LeByte(counter, 8, i);
    }
  }

  lemma {:induction false} LeIgnoresHighPart(v: nat, q: nat, n: nat)
    ensures Le(v + q * Pow256(n), n) == Le(v, n)
    decreases n
  {
    if n > 0 {
      var m := q * Pow256(n - 1);
      assert q * Pow256(n) == 256 * m;
      assert (v + 256 * m) % 256 == v % 256 && (v + 256 * m) / 256 == v / 256 + m;
      LeIgnoresHighPart(v / 256, q, n - 1);
    }
  }

  lemma LeDropsHighPart(v: nat, n: nat)
    ensures Le(v, n) == Le(v % Pow256(n), n)
  {
    hide Le, Pow256;
    LeIgnoresHighPart(v % Pow256(n), v / Pow256(n), n);
    assert v == v % Pow256(n) + v / Pow256(n) * Pow256(n);
  }

  /** The 11-byte CCM nonces of two counter values agree exactly when the values
      agree modulo 2^64. */
  lemma NoncesAgree(i: nat, j: nat)
    ensures NonceOf(i)[..11] == NonceOf(j)[..11] <==> i % TWO_64 == j % TWO_64
  {
    hide Le, FromLe;
    Pow256Values();
    LeDropsHighPart(i, 8);
    LeDropsHighPart(j, 8);
    assert NonceOf(i)[..11][..8] == Le(i, 8) && NonceOf(j)[..11][..8] == Le(j, 8);
    LeRoundTrip(i % TWO_64, 8);
    LeRoundTrip(j % TWO_64, 8);
  }

  /** The frame is a transform message whose CCM nonce is the start of `nonce`. */
  ghost predicate CarriesNonce(frame: bytes, nonce: Block) {
    DecodePayload(frame).Ok? && |DecodePayload(frame).value| >= TRANSFORM_SIZE
    && DecodePayload(frame).value[20..31] == nonce[..11]
  }

  /** Every frame on the wire carries the nonce of its own counter value. */
  ghost predicate Stamped(wire: seq<bytes>, stamps: seq<nat>, calls: nat) {
    && |stamps| == |wire|
    && (forall i, j | 0 <= i < j < |stamps| :: stamps[i] < stamps[j])
    && (forall i | 0 <= i < |stamps| :: 1 <= stamps[i] <= calls)
    && (forall i | 0 <= i < |wire| :: CarriesNonce(wire[i], NonceOf(stamps[i])))
  }

  lemma StampedAppend(wire: seq<bytes>, stamps: seq<nat>, calls: nat, frame: bytes)
    requires Stamped(wire, stamps, calls) && CarriesNonce(frame, NonceOf(calls + 1))
    ensures Stamped(wire + [frame], stamps + [calls + 1], calls + 1)
  {
    var w, s := wire + [frame], stamps + [calls + 1];
    forall i | 0 <= i < |w| ensures CarriesNonce(w[i], NonceOf(s[i])) {
      if i < |wire| { assert w[i] == wire[i] && s[i] == stamps[i]; }
    }
  }

  lemma StampedLater(wire: seq<bytes>, stamps: seq<nat>, calls: nat)
    requires Stamped(wire, stamps, calls)
    ensures Stamped(wire, stamps, calls + 1)
  {
  }

  lemma SameNonce(counter: nat)
    ensures NonceOf(counter % TWO_64) == NonceOf(counter)
  {
    Pow256Values();
    LeDropsHighPart(counter, 8);
    LeDropsHighPart(counter % TWO_64, 8);
  }

  lemma EncryptedCarriesNonce(cipher: Cmac.Cipher, frame: bytes, key: bytes, sessionId: u64, nonce: Block,
                              dialect: Dialect)
    requires EncryptFrame(cipher, frame, key, sessionId, nonce, dialect).Ok?
    ensures CarriesNonce(EncryptFrame(cipher, frame, key, sessionId, nonce, dialect).value, nonce)
  {
    PayloadReencodes(frame);
    var payload := DecodePayload(frame).value;
    var blank := TransformHeader(Zeros(16), nonce, |payload|, sessionId);
    var sealed := Ccm.Encrypt(cipher, key, nonce[..11], payload, Aad(blank), 16).value;
    SealedFields(sealed.tag, nonce, |payload|, sessionId, sealed.ciphertext);
    FrameRoundTrip(blank[..4] + sealed.tag + blank[20..] + sealed.ciphertext);
  }

  /** Two frames of one run never share a CCM nonce before the counter has gone
      through all 2^64 values. */
  lemma StampedDistinct(wire: seq<bytes>, stamps: seq<nat>, calls: nat, i: nat, j: nat)
    requires Stamped(wire, stamps, calls) && calls < TWO_64 && i < j < |wire|
    ensures DecodePayload(wire[i]).Ok? && DecodePayload(wire[j]).Ok?
    ensures |DecodePayload(wire[i]).value| >= TRANSFORM_SIZE && |DecodePayload(wire[j]).value| >= TRANSFORM_SIZE
    ensures DecodePayload(wire[i]).value[20..31] != DecodePayload(wire[j]).value[20..31]
  {
    hide NonceOf, DecodePayload;
    assert CarriesNonce(wire[i], NonceOf(stamps[i]));
    assert CarriesNonce(wire[j], NonceOf(stamps[j]));
    NoncesAgree(stamps[i], stamps[j]);
    assert stamps[i] % TWO_64 == stamps[i] && stamps[j] % TWO_64 == stamps[j];
  }

  class EncryptionTransport {
    const cipher: Cmac.Cipher
    const encryptionKey: bytes
    const decryptionKey: bytes
    const sessionId: u64
    const dialect: Dialect
    var nonceCounter: nat
    ghost var calls: nat          // exchanges begun
    ghost var wire: seq<bytes>    // frames handed to the inner transport
    ghost var stamps: seq<nat>    // counter value each of them was sent under

    ghost predicate Valid()
      reads this
    {
      |decryptionKey| >= 16 && nonceCounter == (calls + 1) % TWO_64 && Stamped(wire, stamps, calls)
    }

    constructor (cipher: Cmac.Cipher, encryptionKey: bytes, decryptionKey: bytes, sessionId: u64, dialect: Dialect)
      requires |decryptionKey| >= 16
      ensures Valid() && wire == [] && calls == 0
      ensures this.cipher == cipher && this.encryptionKey == encryptionKey
      ensures this.decryptionKey == decryptionKey && this.sessionId == sessionId && this.dialect == dialect
    {
      this.cipher, this.encryptionKey, this.decryptionKey := cipher, encryptionKey, decryptionKey;
      this.sessionId, this.dialect := sessionId, dialect;
      nonceCounter, calls, wire, stamps := 1, 0, [], [];
    }

    method NextNonce() returns (nonce: Block)
      modifies `nonceCounter
      ensures nonce == NonceOf(old(nonceCounter)) && nonceCounter == (old(nonceCounter) + 1) % TWO_64
    {
      hide Le;
      var value := nonceCounter;
      nonceCounter := (nonceCounter + 1) % TWO_64;
      var head: bytes := [];
      var rest: nat := value;
      var index := 0;
      while index < 8
        invariant 0 <= index <= 8 && |head| == index
        invariant nonceCounter == (value + 1) % TWO_64
        invariant Le(value, 8) == head + Le(rest, 8 - index)
      {
        LeStep(rest, 7 - index);
        head := head + [rest % 256];
        rest := rest / 256;
        index := index + 1;
      }
      LeStep(rest, 0);
      assert head + [] == head;
      nonce := head + Zeros(8);
    }

    /** Encrypt under the next nonce and note the frame about to be sent. */
    method Seal(request: bytes) returns (encrypted: Result<bytes>)
      requires Valid()
      modifies this
      ensures Valid() && calls == old(calls) + 1
      ensures encrypted == EncryptFrame(cipher, request, encryptionKey, sessionId, NonceOf(old(calls) + 1), dialect)
      ensures wire == if encrypted.Ok? then old(wire) + [encrypted.value] else old(wire)
    {
      hide EncryptFrame, Stamped, NonceOf;
      var nonce := NextNonce();
      SameNonce(calls + 1);
      encrypted := EncryptFrame(cipher, request, encryptionKey, sessionId, nonce, dialect);
      if encrypted.Ok? {
        EncryptedCarriesNonce(cipher, request, encryptionKey, sessionId, nonce, dialect);
        StampedAppend(wire, stamps, calls, encrypted.value);
        wire, stamps := wire + [encrypted.value], stamps + [calls + 1];
      } else {
        StampedLater(wire, stamps, calls);
      }
      calls := calls + 1;
    }

    /** One exchange: encrypt under a fresh nonce, send, decrypt the answer. */
    method Exchange(request: bytes, inner: bytes -> Result<bytes>) returns (r: Result<bytes>)
      requires Valid()
      modifies this
      ensures Valid() && calls == old(calls) + 1
      ensures var sent := EncryptFrame(cipher, request, encryptionKey, sessionId, NonceOf(old(calls) + 1), dialect);
              && wire == (if sent.Ok? then old(wire) + [sent.value] else old(wire))
              && r == if sent.Err? || inner(sent.value).Err? then (if sent.Err? then sent else inner(sent.value))
                      else DecryptFrame(cipher, inner(sent.value).value, decryptionKey, sessionId, dialect)
    {
      var encrypted := Seal(request);
      if encrypted.Err? { return encrypted; }
      var response := inner(encrypted.value);
      if response.Err? { return response; }
      r := DecryptFrame(cipher, response.value, decryptionKey, sessionId, dialect);
    }
  }
}
