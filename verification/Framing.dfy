/** Direct TCP framing and the 64-byte SMB2 header. */
module Framing {
  import opened Bytes

  type u16 = x: nat | x < 0x1_0000
  type u32 = x: nat | x < 0x1_0000_0000
  type u64 = x: nat | x < 0x1_0000_0000_0000_0000

  /** UTF-16 text, as the application layer holds it. */
  type Text = seq<u16>

  /** Dialect revisions; any other 16-bit revision is `Other`. */
  datatype Dialect = Smb202 | Smb210 | Smb300 | Smb302 | Smb311 | Other

  const MAX_PAYLOAD: nat := 0xFF_FFFF
  const HEADER_SIZE: nat := 64
  const SMB2_PROTOCOL_ID: nat := 0x424D_53FE
  const PROCESS_ID: nat := 0x0000_FEFF

  // ------------------------------------------------------- Direct TCP frames

  function EncodeFrame(message: bytes): Result<bytes> {
    if |message| > MAX_PAYLOAD then Err(InvalidArgument)
    else Ok([0] + Be(|message|, 3) + message)
  }

  function DecodePayload(frame: bytes): Result<bytes> {
    if |frame| < 4 then Err(IoError)
    else if frame[0] != 0 then Err(ProtocolUnsupported)
    else
      var length := FromBe(frame[1..4]);
      if |frame| < 4 + length then Err(IoError) else Ok(frame[4..4 + length])
  }

  /** Every message that can be framed is recovered from its frame. */
  lemma FrameRoundTrip(message: bytes)
    requires |message| <= MAX_PAYLOAD
    ensures EncodeFrame(message).Ok? && DecodePayload(EncodeFrame(message).value) == Ok(message)
  {
    Pow256Values();
    BeRoundTrip(|message|, 3);
    var frame := EncodeFrame(message).value;
    assert frame[1..4] == Be(|message|, 3);
    assert frame[4..4 + |message|] == message;
  }

  /** A decoded payload always fits in a frame again, and framing it gives back
      the frame up to the declared length: trailing bytes are dropped. */
  lemma PayloadReencodes(frame: bytes)
    requires DecodePayload(frame).Ok?
    ensures var payload := DecodePayload(frame).value;
            && |payload| <= MAX_PAYLOAD
            && EncodeFrame(payload) == Ok(frame[..4 + |payload|])
  {
    Pow256Values();
    FromBeRoundTrip(frame[1..4]);
    var payload := DecodePayload(frame).value;
    assert frame[..4 + |payload|] == [frame[0]] + frame[1..4] + frame[4..4 + |payload|];
  }

  // ------------------------------------------------------------ SMB2 header

  datatype Header = Header(
    creditCharge: u16, status: u32, command: u16, creditRequest: u16, flags: u32,
    nextCommand: u32, messageId: u64, treeId: u32, sessionId: u64, signature: Block)

  function EncodeHeader(h: Header): (r: bytes)
    ensures |r| == HEADER_SIZE
  {
    Le(SMB2_PROTOCOL_ID, 4) + Le(HEADER_SIZE, 2) + Le(h.creditCharge, 2) + Le(h.status, 4)
    + Le(h.command, 2) + Le(h.creditRequest, 2) + Le(h.flags, 4) + Le(h.nextCommand, 4)
    + Le(h.messageId, 8) + Le(PROCESS_ID, 4) + Le(h.treeId, 4) + Le(h.sessionId, 8) + h.signature
  }

  function ReadU16(b: bytes, at: nat): u16
    requires at + 2 <= |b|
  {
    Pow256Values();
    FromLeBound(b[at..at + 2]);
    FromLe(b[at..at + 2])
  }

  function ReadU32(b: bytes, at: nat): u32
    requires at + 4 <= |b|
  {
    Pow256Values();
    FromLeBound(b[at..at + 4]);
    FromLe(b[at..at + 4])
  }

  function ReadU64(b: bytes, at: nat): u64
    requires at + 8 <= |b|
  {
    Pow256Values();
    FromLeBound(b[at..at + 8]);
    FromLe(b[at..at + 8])
  }

  function DecodeHeader(b: bytes): Result<Header> {
    if |b| < HEADER_SIZE then Err(IoError)
    else if ReadU32(b, 0) != SMB2_PROTOCOL_ID then Err(ProtocolUnsupported)
    else if ReadU16(b, 4) != HEADER_SIZE then Err(ProtocolUnsupported)
    else Ok(Header(ReadU16(b, 6), ReadU32(b, 8), ReadU16(b, 12), ReadU16(b, 14), ReadU32(b, 16),
                   ReadU32(b, 20), ReadU64(b, 24), ReadU32(b, 36), ReadU64(b, 40), b[48..64]))
  }

  /** Where the thirteen fields of a header sit. */
  lemma FieldSlices(p0: bytes, p1: bytes, p2: bytes, p3: bytes, p4: bytes, p5: bytes, p6: bytes,
                    p7: bytes, p8: bytes, p9: bytes, p10: bytes, p11: bytes, p12: bytes, rest: bytes)
    requires |p0| == 4 && |p1| == 2 && |p2| == 2 && |p3| == 4 && |p4| == 2 && |p5| == 2 && |p6| == 4
    requires |p7| == 4 && |p8| == 8 && |p9| == 4 && |p10| == 4 && |p11| == 8 && |p12| == 16
    ensures var b := p0 + p1 + p2 + p3 + p4 + p5 + p6 + p7 + p8 + p9 + p10 + p11 + p12 + rest;
            && b[0..4] == p0 && b[4..6] == p1 && b[6..8] == p2 && b[8..12] == p3
            && b[12..14] == p4 && b[14..16] == p5 && b[16..20] == p6 && b[20..24] == p7
            && b[24..32] == p8 && b[32..36] == p9 && b[36..40] == p10 && b[40..48] == p11
            && b[48..64] == p12
  {
  }

  /** A fixed-width field reads back as the value written. */
  lemma ReadsBack(slice: bytes, v: nat, n: nat)
    requires slice == Le(v, n) && v < Pow256(n)
    ensures FromLe(slice) == v
  {
    LeRoundTrip(v, n);
  }

  /** Decoding inverts encoding, whatever follows the header. */
  lemma HeaderRoundTrip(h: Header, rest: bytes)
    ensures DecodeHeader(EncodeHeader(h) + rest) == Ok(h)
  {
    hide Le, FromLe;
    Pow256Values();
    var b := EncodeHeader(h) + rest;
    FieldSlices(Le(SMB2_PROTOCOL_ID, 4), Le(HEADER_SIZE, 2), Le(h.creditCharge, 2), Le(h.status, 4),
                Le(h.command, 2), Le(h.creditRequest, 2), Le(h.flags, 4), Le(h.nextCommand, 4),
                Le(h.messageId, 8), Le(PROCESS_ID, 4), Le(h.treeId, 4), Le(h.sessionId, 8),
                h.signature, rest);
    ReadsBack(b[0..4], SMB2_PROTOCOL_ID, 4);
    ReadsBack(b[4..6], HEADER_SIZE, 2);
    ReadsBack(b[6..8], h.creditCharge, 2);
    ReadsBack(b[8..12], h.status, 4);
    ReadsBack(b[12..14], h.command, 2);
    ReadsBack(b[14..16], h.creditRequest, 2);
    ReadsBack(b[16..20], h.flags, 4);
    ReadsBack(b[20..24], h.nextCommand, 4);
    ReadsBack(b[24..32], h.messageId, 8);
    ReadsBack(b[36..40], h.treeId, 4);
    ReadsBack(b[40..48], h.sessionId, 8);
  }

  /** The fields of `b` joined again. */
  lemma FieldsJoin(b: bytes)
    requires |b| >= 64
    ensures b[0..4] + b[4..6] + b[6..8] + b[8..12] + b[12..14] + b[14..16] + b[16..20] + b[20..24]
            + b[24..32] + b[32..36] + b[36..40] + b[40..48] + b[48..64] == b[..64]
  {
  }

  /** Encoding a decoded header restores the bytes exactly when the process id
      slot, which the decoder does not read, holds the id the encoder writes. */
  lemma HeaderReencodes(b: bytes)
    requires DecodeHeader(b).Ok?
    ensures EncodeHeader(DecodeHeader(b).value) == b[..64] <==> ReadU32(b, 32) == PROCESS_ID
  {
    hide Le, FromLe;
    Pow256Values();
    var h := DecodeHeader(b).value;
    FromLeRoundTrip(b[0..4]);
    FromLeRoundTrip(b[4..6]);
    FromLeRoundTrip(b[6..8]);
    FromLeRoundTrip(b[8..12]);
    FromLeRoundTrip(b[12..14]);
    FromLeRoundTrip(b[14..16]);
    FromLeRoundTrip(b[16..20]);
    FromLeRoundTrip(b[20..24]);
    FromLeRoundTrip(b[24..32]);
    FromLeRoundTrip(b[32..36]);
    FromLeRoundTrip(b[36..40]);
    FromLeRoundTrip(b[40..48]);
    FieldsJoin(b);
    if EncodeHeader(h) == b[..64] {
      FieldSlices(Le(SMB2_PROTOCOL_ID, 4), Le(HEADER_SIZE, 2), Le(h.creditCharge, 2), Le(h.status, 4),
                  Le(h.command, 2), Le(h.creditRequest, 2), Le(h.flags, 4), Le(h.nextCommand, 4),
                  Le(h.messageId, 8), Le(PROCESS_ID, 4), Le(h.treeId, 4), Le(h.sessionId, 8),
                  h.signature, []);
      assert EncodeHeader(h) + [] == EncodeHeader(h);
      assert EncodeHeader(h)[32..36] == b[..64][32..36] == b[32..36];
      ReadsBack(b[32..36], PROCESS_ID, 4);
    }
  }

  // ----------------------------------------------- the layouts, byte by byte

  /** Direct TCP (section 2.1 of MS-SMB2): a zero byte, the length in three bytes in
      network order, the message; longer messages are refused. */
  lemma FrameBytes(message: bytes)
    ensures EncodeFrame(message).Ok? <==> |message| <= 0xFF_FFFF
    ensures EncodeFrame(message).Ok? ==>
      var f := EncodeFrame(message).value;
      && |f| == 4 + |message| && f[0] == 0 && f[4..] == message
      && f[1] == |message| / 0x1_0000 && f[2] == |message| / 0x100 % 0x100 && f[3] == |message| % 0x100
  {
    Pow256Values();
    if |message| <= MAX_PAYLOAD {
      assert Pow256(0) == 1;
      BeByte(|message|, 3, 0);
      BeByte(|message|, 3, 1);
      BeByte(|message|, 3, 2);
    }
  }

  /** Exactly which frames are accepted, and what is taken out of them. */
  lemma PayloadBytes(frame: bytes)
    ensures DecodePayload(frame).Ok? <==>
            && |frame| >= 4 && frame[0] == 0
            && |frame| - 4 >= 0x1_0000 * frame[1] as nat + 0x100 * frame[2] as nat + frame[3] as nat
    ensures DecodePayload(frame).Ok? ==>
      DecodePayload(frame).value
      == frame[4..4 + 0x1_0000 * frame[1] as nat + 0x100 * frame[2] as nat + frame[3] as nat]
  {
    if |frame| >= 4 {
      assert frame[1..4] == [frame[1], frame[2], frame[3]];
      ThreeBytes(frame[1], frame[2], frame[3]);
    }
  }

  lemma ThreeBytes(a: byte, b: byte, c: byte)
    ensures FromBe([a, b, c]) == 0x1_0000 * a as nat + 0x100 * b as nat + c as nat
  {
    assert [a, b, c][..2] == [a, b] && [a, b][..1] == [a] && [a][..0] == [];
    assert FromBe([a]) == a as nat && FromBe([a, b]) == 256 * a as nat + b as nat;
  }

  /** Fields are read little-endian. */
  lemma ReadBytes(b: bytes, at: nat)
    ensures at + 2 <= |b| ==> ReadU16(b, at) == b[at] as nat + 0x100 * b[at + 1] as nat
    ensures at + 4 <= |b| ==>
      ReadU32(b, at) == b[at] as nat + 0x100 * b[at + 1] as nat + 0x1_0000 * b[at + 2] as nat
                        + 0x100_0000 * b[at + 3] as nat
  {
    if at + 2 <= |b| {
      assert b[at..at + 2] == [b[at], b[at + 1]];
      LittleEndian(b[at], b[at + 1], 0, 0);
    }
    if at + 4 <= |b| {
      assert b[at..at + 4] == [b[at], b[at + 1], b[at + 2], b[at + 3]];
      LittleEndian(b[at], b[at + 1], b[at + 2], b[at + 3]);
    }
  }

  lemma LittleEndian(a: byte, b: byte, c: byte, d: byte)
    ensures FromLe([a, b]) == a as nat + 0x100 * b as nat
    ensures FromLe([a, b, c, d]) == a as nat + 0x100 * b as nat + 0x1_0000 * c as nat + 0x100_0000 * d as nat
  {
    hide FromLe;
    FromLeStep(a, [b]);
    FromLeStep(b, []);
    FromLeStep(a, [b, c, d]);
    FromLeStep(b, [c, d]);
    FromLeStep(c, [d]);
    FromLeStep(d, []);
    assert [a] + [b] == [a, b] && [b] + [] == [b] && [a] + [b, c, d] == [a, b, c, d] && [b] + [c, d] == [b, c, d];
    assert [c] + [d] == [c, d] && [d] + [] == [d];
  }

  lemma FromLeStep(a: byte, rest: bytes)
    ensures FromLe([a] + rest) == a as nat + 256 * FromLe(rest) && FromLe([]) == 0
  {
    assert ([a] + rest)[1..] == rest;
  }

  /** The header of section 2.2.1.2 of MS-SMB2: FE S M B, the structure size 64, and every
      field in its place, little-endian. */
  lemma HeaderBytes(h: Header)
    ensures var b := EncodeHeader(h);
            && b[0..4] == [0xFE, 0x53, 0x4D, 0x42] && b[4..6] == [64, 0] && b[6..8] == Le(h.creditCharge, 2)
            && b[8..12] == Le(h.status, 4) && b[12..14] == Le(h.command, 2) && b[14..16] == Le(h.creditRequest, 2)
            && b[16..20] == Le(h.flags, 4) && b[20..24] == Le(h.nextCommand, 4) && b[24..32] == Le(h.messageId, 8)
            && b[32..36] == [0xFF, 0xFE, 0, 0] && b[36..40] == Le(h.treeId, 4) && b[40..48] == Le(h.sessionId, 8)
            && b[48..64] == h.signature
  {
    hide Le;
    FieldSlices(Le(SMB2_PROTOCOL_ID, 4), Le(HEADER_SIZE, 2), Le(h.creditCharge, 2), Le(h.status, 4),
                Le(h.command, 2), Le(h.creditRequest, 2), Le(h.flags, 4), Le(h.nextCommand, 4),
                Le(h.messageId, 8), Le(PROCESS_ID, 4), Le(h.treeId, 4), Le(h.sessionId, 8), h.signature, []);
    assert EncodeHeader(h) + [] == EncodeHeader(h);
    HeaderConstants();
  }

  lemma HeaderConstants()
    ensures Le(SMB2_PROTOCOL_ID, 4) == [0xFE, 0x53, 0x4D, 0x42] && Le(HEADER_SIZE, 2) == [64, 0]
    ensures Le(PROCESS_ID, 4) == [0xFF, 0xFE, 0, 0]
  {
    assert Le(0x42, 1) == [0x42] && Le(0x424D, 2) == [0x4D, 0x42] && Le(0x424D_53, 3) == [0x53, 0x4D, 0x42];
    assert Le(0, 1) == [0] && Le(0, 2) == [0, 0] && Le(0xFE, 3) == [0xFE, 0, 0];
  }
}
