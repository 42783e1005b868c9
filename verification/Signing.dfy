/** SMB2 message signing (section 3.1.4.1 of MS-SMB2), for any HMAC-SHA256 and
    any block cipher. */
module Signing {
  import opened Bytes
  import opened Framing
  import Cmac

  type Digest = b: bytes | |b| == 32 witness seq(32, i => 0)

  /** The primitives the signing code calls. */
  datatype Primitives = Primitives(hmac: (bytes, bytes) -> Digest, cipher: Cmac.Cipher)

  predicate UsesHmac(d: Dialect) { d.Smb202? || d.Smb210? }
  predicate UsesCmac(d: Dialect) { d.Smb300? || d.Smb302? || d.Smb311? }

  /** The 16 signature bytes over a payload. */
  function Mac(p: Primitives, key: bytes, dialect: Dialect, payload: bytes): (r: Result<Block>)
    ensures r.Ok? <==> UsesHmac(dialect) || |key| == 16
  {
    if UsesHmac(dialect) then Ok(p.hmac(key, payload)[..16]) else Cmac.Cmac(p.cipher, key, payload)
  }

  // flags bit 3, kFlagSigned
  predicate SignedFlag(flags: nat) { flags / 8 % 2 == 1 }

  function SetSignedFlag(flags: u32): (r: u32)
    ensures SignedFlag(r) && r % 8 == flags % 8 && r / 16 == flags / 16
    ensures SignedFlag(flags) ==> r == flags
  {
    if SignedFlag(flags) then flags else flags + 8
  }

  /** Payload with bytes `at..at + |field|` overwritten. */
  function Overwrite(payload: bytes, at: nat, field: bytes): (r: bytes)
    requires at + |field| <= |payload|
    ensures |r| == |payload|
  {
    payload[..at] + field + payload[at + |field|..]
  }

  function Flagged(payload: bytes): bytes
    requires |payload| >= HEADER_SIZE
  {
    Overwrite(payload, 16, Le(SetSignedFlag(ReadU32(payload, 16)), 4))
  }

  /** The bytes the signature is computed over. */
  function Blanked(payload: bytes): bytes
    requires |payload| >= HEADER_SIZE
  {
    Overwrite(payload, 48, Zeros(16))
  }

  function SignPayload(p: Primitives, payload: bytes, key: bytes, dialect: Dialect): (r: Result<bytes>)
    requires |payload| >= HEADER_SIZE
  {
    var blank := Blanked(Flagged(payload));
    match Mac(p, key, dialect, blank)
    case Err(e) => Err(e)
    case Ok(mac) => Ok(Overwrite(blank, 48, mac))
  }

  function Sign(p: Primitives, frame: bytes, key: bytes, dialect: Dialect): Result<bytes> {
    if !UsesHmac(dialect) && !UsesCmac(dialect) then Err(UnsupportedCapability)
    else match DecodePayload(frame)
      case Err(e) => Err(e)
      case Ok(payload) =>
        if |payload| < HEADER_SIZE then Err(ProtocolUnsupported)
        else match SignPayload(p, payload, key, dialect)
          case Err(e) => Err(e)
          case Ok(signed) => EncodeFrame(signed)
  }

  function Verify(p: Primitives, frame: bytes, key: bytes, dialect: Dialect): Result<bool> {
    if !UsesHmac(dialect) && !UsesCmac(dialect) then Err(UnsupportedCapability)
    else match DecodePayload(frame)
      case Err(e) => Err(e)
      case Ok(payload) =>
        if |payload| < HEADER_SIZE then Err(ProtocolUnsupported)
        else if !SignedFlag(ReadU32(payload, 16)) then Ok(false)
        else match Mac(p, key, dialect, Blanked(payload))
          case Err(e) => Err(e)
          case Ok(mac) => Ok(payload[48..64] == mac)
  }

  // ------------------------------------------------ the in-place algorithms

  method ZeroSignature(buffer: array<byte>)
    requires buffer.Length >= HEADER_SIZE
    modifies buffer
    ensures buffer[..] == Blanked(old(buffer[..]))
  {
    CopyInto(buffer, 48, Zeros(16));
  }

  method CopyInto(buffer: array<byte>, at: nat, field: bytes)
    requires at + |field| <= buffer.Length
    modifies buffer
    ensures buffer[..] == Overwrite(old(buffer[..]), at, field)
  {
    var i := 0;
    while i < |field|
      invariant 0 <= i <= |field|
      invariant forall j | 0 <= j < buffer.Length ::
        buffer[j] == if at <= j < at + i then field[j - at] else old(buffer[j])
    {
      buffer[at + i] := field[i];
      i := i + 1;
    }
  }

  /** Signing works in place on the decoded payload. */
  method SignFrame(p: Primitives, frame: bytes, key: bytes, dialect: Dialect) returns (r: Result<bytes>)
    ensures r == Sign(p, frame, key, dialect)
  {
    if !UsesHmac(dialect) && !UsesCmac(dialect) { return Err(UnsupportedCapability); }
    var decoded := DecodePayload(frame);
    if decoded.Err? { return Err(decoded.code); }
    var payload := decoded.value;
    if |payload| < HEADER_SIZE { return Err(ProtocolUnsupported); }
    var buffer := new byte[|payload|](i requires 0 <= i < |payload| => payload[i]);
    assert buffer[..] == payload;
    var flags := SetSignedFlag(ReadU32(buffer[..], 16));
    CopyInto(buffer, 16, Le(flags, 4));
    ZeroSignature(buffer);
    if UsesHmac(dialect) {
      CopyInto(buffer, 48, p.hmac(key, buffer[..])[..16]);
    } else {
      var digest := Cmac.Aes128Cmac(p.cipher, key, buffer[..]);
      if digest.Err? { return Err(digest.code); }
      CopyInto(buffer, 48, digest.value);
    }
    r := EncodeFrame(buffer[..]);
  }

  method VerifyFrame(p: Primitives, frame: bytes, key: bytes, dialect: Dialect) returns (r: Result<bool>)
    ensures r == Verify(p, frame, key, dialect)
  {
    if !UsesHmac(dialect) && !UsesCmac(dialect) { return Err(UnsupportedCapability); }
    var decoded := DecodePayload(frame);
    if decoded.Err? { return Err(decoded.code); }
    var payload := decoded.value;
    if |payload| < HEADER_SIZE { return Err(ProtocolUnsupported); }
    if !SignedFlag(ReadU32(payload, 16)) { return Ok(false); }
    var buffer := new byte[|payload|](i requires 0 <= i < |payload| => payload[i]);
    assert buffer[..] == payload;
    var expected := payload[48..64];
    ZeroSignature(buffer);
    if UsesHmac(dialect) {
      r := Ok(expected == p.hmac(key, buffer[..])[..16]);
    } else {
      var digest := Cmac.Aes128Cmac(p.cipher, key, buffer[..]);
      if digest.Err? { return Err(digest.code); }
      r := Ok(expected == digest.value);
    }
  }

  // ------------------------------------------------------------- properties

  lemma OverwriteSlices(payload: bytes, at: nat, field: bytes)
    requires at + |field| <= |payload|
    ensures var r := Overwrite(payload, at, field);
            && r[at..at + |field|] == field
            && r[..at] == payload[..at] && r[at + |field|..] == payload[at + |field|..]
            && forall i, j | 0 <= i <= j <= |payload| && (j <= at || at + |field| <= i) :: r[i..j] == payload[i..j]
  {
  }

  /** What signing leaves: flag set, everything outside bytes 16..19 and 48..63 kept,
      and blanking the signature again gives the bytes that were signed. */
  lemma SignPayloadShape(p: Primitives, payload: bytes, key: bytes, dialect: Dialect)
    requires |payload| >= HEADER_SIZE && SignPayload(p, payload, key, dialect).Ok?
    ensures var s := SignPayload(p, payload, key, dialect).value;
            && |s| == |payload|
            && s[..16] == payload[..16] && s[20..48] == payload[20..48] && s[64..] == payload[64..]
            && ReadU32(s, 16) == SetSignedFlag(ReadU32(payload, 16))
            && Blanked(s) == Blanked(Flagged(payload))
            && Mac(p, key, dialect, Blanked(s)) == Ok(s[48..64])
  {
    hide Le, FromLe;
    Pow256Values();
    var flags := SetSignedFlag(ReadU32(payload, 16));
    LeRoundTrip(flags, 4);
    var flagged := Flagged(payload);
    OverwriteSlices(payload, 16, Le(flags, 4));
    var blank := Blanked(flagged);
    OverwriteSlices(flagged, 48, Zeros(16));
    var mac := Mac(p, key, dialect, blank).value;
    var s := Overwrite(blank, 48, mac);
    OverwriteSlices(blank, 48, mac);
    OverwriteTwice(blank, 48, mac, Zeros(16));
    OverwriteTwice(flagged, 48, Zeros(16), Zeros(16));
    assert s[16..20] == blank[16..20] == flagged[16..20];
  }

  lemma OverwriteTwice(payload: bytes, at: nat, first: bytes, second: bytes)
    requires |first| == |second| && at + |first| <= |payload|
    ensures Overwrite(Overwrite(payload, at, first), at, second) == Overwrite(payload, at, second)
  {
  }

  /** Signing a frame of at least 64 payload bytes succeeds exactly for the
      supported dialects, with a 16-byte key where the MAC is CMAC. */
  lemma SignSucceeds(p: Primitives, frame: bytes, key: bytes, dialect: Dialect)
    ensures Sign(p, frame, key, dialect).Ok? <==>
            && (UsesHmac(dialect) || (UsesCmac(dialect) && |key| == 16))
            && DecodePayload(frame).Ok? && |DecodePayload(frame).value| >= HEADER_SIZE
  {
    if DecodePayload(frame).Ok? { PayloadReencodes(frame); }
  }

  /** The decoded payload of a signed frame. */
  lemma SignedPayload(p: Primitives, frame: bytes, key: bytes, dialect: Dialect)
    requires Sign(p, frame, key, dialect).Ok?
    ensures DecodePayload(frame).Ok? && |DecodePayload(frame).value| >= HEADER_SIZE
    ensures var signed := SignPayload(p, DecodePayload(frame).value, key, dialect);
            signed.Ok? && DecodePayload(Sign(p, frame, key, dialect).value) == signed
  {
    PayloadReencodes(frame);
    var payload := DecodePayload(frame).value;
    SignPayloadShape(p, payload, key, dialect);
    FrameRoundTrip(SignPayload(p, payload, key, dialect).value);
  }

  /** A signed frame verifies under the same key. */
  lemma SignThenVerify(p: Primitives, frame: bytes, key: bytes, dialect: Dialect)
    requires Sign(p, frame, key, dialect).Ok?
    ensures Verify(p, Sign(p, frame, key, dialect).value, key, dialect) == Ok(true)
  {
    SignedPayload(p, frame, key, dialect);
    SignPayloadShape(p, DecodePayload(frame).value, key, dialect);
  }

  /** Verification accepts exactly the frames whose payload signing would leave
      as it is: no other bytes in the signature or flags slots are accepted. */
  lemma VerifyIffFixedPoint(p: Primitives, frame: bytes, key: bytes, dialect: Dialect)
    requires DecodePayload(frame).Ok?
    ensures Verify(p, frame, key, dialect) == Ok(true) <==>
            (var payload := DecodePayload(frame).value;
             Sign(p, frame, key, dialect).Ok? && Sign(p, frame, key, dialect) == EncodeFrame(payload))
  {
    PayloadReencodes(frame);
    var payload := DecodePayload(frame).value;
    var signed := Sign(p, frame, key, dialect);
    if signed.Ok? && signed == EncodeFrame(payload) {
      SignedPayload(p, frame, key, dialect);
      FrameRoundTrip(payload);
      SignPayloadShape(p, payload, key, dialect);
    }
    if Verify(p, frame, key, dialect) == Ok(true) {
      FlaggedIdentity(payload);
      SignSucceeds(p, frame, key, dialect);
      OverwriteBack(payload);
    }
  }

  lemma FlaggedIdentity(payload: bytes)
    requires |payload| >= HEADER_SIZE && SignedFlag(ReadU32(payload, 16))
    ensures Flagged(payload) == payload
  {
    FromLeRoundTrip(payload[16..20]);
    assert payload == payload[..16] + payload[16..20] + payload[20..];
  }

  lemma OverwriteBack(payload: bytes)
    requires |payload| >= HEADER_SIZE
    ensures Overwrite(Blanked(payload), 48, payload[48..64]) == payload
  {
  }

  /** Signing twice is signing once. */
  lemma SignIdempotent(p: Primitives, frame: bytes, key: bytes, dialect: Dialect)
    requires Sign(p, frame, key, dialect).Ok?
    ensures Sign(p, Sign(p, frame, key, dialect).value, key, dialect) == Sign(p, frame, key, dialect)
  {
    var signed := Sign(p, frame, key, dialect).value;
    SignThenVerify(p, frame, key, dialect);
    SignedPayload(p, frame, key, dialect);
    VerifyIffFixedPoint(p, signed, key, dialect);
  }

  /** Every header field but the flags and the signature decodes as before, and
      so does the body. */
  lemma SigningPreservesHeader(p: Primitives, frame: bytes, key: bytes, dialect: Dialect)
    requires Sign(p, frame, key, dialect).Ok? && DecodePayload(frame).Ok?
    ensures DecodePayload(Sign(p, frame, key, dialect).value).Ok?
    ensures var before := DecodePayload(frame).value;
            var after := DecodePayload(Sign(p, frame, key, dialect).value).value;
            && |after| == |before| >= HEADER_SIZE && after[64..] == before[64..]
            && match DecodeHeader(before) {
                 case Err(e) => DecodeHeader(after) == Err(e)
                 case Ok(h) => DecodeHeader(after) ==
                   Ok(h.(flags := SetSignedFlag(h.flags), signature := after[48..64]))
               }
  {
    SignedPayload(p, frame, key, dialect);
    var before := DecodePayload(frame).value;
    SignPayloadShape(p, before, key, dialect);
    var after := SignPayload(p, before, key, dialect).value;
    SameSlices(before, after);
  }

  lemma SameSlices(a: bytes, b: bytes)
    requires |a| == |b| >= HEADER_SIZE && a[..16] == b[..16] && a[20..48] == b[20..48]
    ensures forall i, j | 0 <= i <= j <= 16 :: a[i..j] == b[i..j]
    ensures forall i, j | 20 <= i <= j <= 48 :: a[i..j] == b[i..j]
  {
    forall i, j | 0 <= i <= j <= 16 ensures a[i..j] == b[i..j] {
      SliceOfSlice(a, 0, 16, i, j);
      SliceOfSlice(b, 0, 16, i, j);
    }
    forall i, j | 20 <= i <= j <= 48 ensures a[i..j] == b[i..j] {
      SliceOfSlice(a, 20, 48, i, j);
      SliceOfSlice(b, 20, 48, i, j);
    }
  }

  // ---------------------------------------------- the signature byte by byte

  /** What ends up in a signed frame: the flag of weight 8 set, and in bytes 48 to 63 of
      the payload the start of the HMAC for SMB 2.0.2 and 2.1, the CMAC for SMB 3.x, of
      that payload with zeros there. */
  lemma SignatureBytes(p: Primitives, frame: bytes, key: bytes, dialect: Dialect) returns (blank: bytes)
    requires Sign(p, frame, key, dialect).Ok?
    ensures DecodePayload(frame).Ok? && DecodePayload(Sign(p, frame, key, dialect).value).Ok?
    ensures var before := DecodePayload(frame).value;
            var after := DecodePayload(Sign(p, frame, key, dialect).value).value;
            && |blank| == |after| == |before| >= 64
            && (forall i | 0 <= i < |after| :: blank[i] == if 48 <= i < 64 then 0 else after[i])
            && ReadU32(after, 16) == ReadU32(before, 16) + (if ReadU32(before, 16) / 8 % 2 == 1 then 0 else 8)
            && (dialect in {Smb202, Smb210} ==> after[48..64] == p.hmac(key, blank)[..16])
            && (dialect in {Smb300, Smb302, Smb311} ==> Cmac.Cmac(p.cipher, key, blank) == Ok(after[48..64]))
            && dialect in {Smb202, Smb210, Smb300, Smb302, Smb311}
  {
    hide Cmac.Cmac, SignPayload, DecodePayload, EncodeFrame;
    SignSucceeds(p, frame, key, dialect);
    SignedPayload(p, frame, key, dialect);
    var before := DecodePayload(frame).value;
    SignPayloadShape(p, before, key, dialect);
    var after := SignPayload(p, before, key, dialect).value;
    blank := Blanked(after);
  }

  /** Verification says yes exactly to a payload of 64 bytes or more with the flag of
      weight 8 whose signature is that of itself with zeros in its place. */
  lemma VerifiedBytes(p: Primitives, frame: bytes, key: bytes, dialect: Dialect)
    ensures Verify(p, frame, key, dialect) == Ok(true) <==>
            && DecodePayload(frame).Ok? && |DecodePayload(frame).value| >= 64
            && var c := DecodePayload(frame).value;
               var blank := c[..48] + seq(16, i => 0) + c[64..];
               && ReadU32(c, 16) / 8 % 2 == 1
               && match dialect {
                    case Smb202 => c[48..64] == p.hmac(key, blank)[..16]
                    case Smb210 => c[48..64] == p.hmac(key, blank)[..16]
                    case Other => false
                    case _ => Cmac.Cmac(p.cipher, key, blank) == Ok(c[48..64])
                  }
  {
    hide Cmac.Cmac, DecodePayload;
    if DecodePayload(frame).Ok? && |DecodePayload(frame).value| >= 64 {
      var c := DecodePayload(frame).value;
      assert Blanked(c) == c[..48] + seq(16, i => 0) + c[64..];
    }
  }
}
