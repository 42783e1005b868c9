/** SPNEGO wrapping of NTLM tokens (section 4.2 of RFC 4178) in DER. */
module Spnego {
  import opened Bytes

  const SEQUENCE: byte := 0x30
  const OCTET_STRING: byte := 0x04
  const OBJECT_IDENTIFIER: byte := 0x06
  const APPLICATION_0: byte := 0x60
  const CONTEXT_0: byte := 0xA0
  const CONTEXT_1: byte := 0xA1
  const CONTEXT_2: byte := 0xA2
  const SPNEGO_OID: bytes := [0x2B, 0x06, 0x01, 0x05, 0x05, 0x02]
  const NTLM_OID: bytes := [0x2B, 0x06, 0x01, 0x04, 0x01, 0x82, 0x37, 0x02, 0x02, 0x0A]
  const NTLM_SIGNATURE: bytes := [0x4E, 0x54, 0x4C, 0x4D, 0x53, 0x53, 0x50, 0]

  const SIZE_LIMIT: nat := 0x1_0000_0000_0000_0000

  // ------------------------------------------------------------ DER lengths

  /** Big-endian bytes without leading zeros. */
  function Minimal(n: nat): bytes {
    if n == 0 then [] else Minimal(n / 256) + [n % 256]
  }

  lemma {:induction false} MinimalValue(n: nat)
    ensures FromBe(Minimal(n)) == n
  {
    if n > 0 {
      MinimalValue(n / 256);
      assert Minimal(n)[..|Minimal(n)| - 1] == Minimal(n / 256);
    }
  }

  lemma {:induction false} MinimalLength(n: nat, k: nat)
    requires n < Pow256(k)
    ensures |Minimal(n)| <= k && (n > 0 ==> |Minimal(n)| > 0)
    decreases k
  {
    if n > 0 { MinimalLength(n / 256, k - 1); }
  }

  function DerLength(n: nat): (r: bytes)
    requires n < SIZE_LIMIT
    ensures 1 <= |r| <= 9
  {
    if n < 0x80 then [n]
    else
      Pow256Values();
      MinimalLength(n, 8);
      [0x80 + |Minimal(n)|] + Minimal(n)
  }

  method BytesOfLength(length: nat) returns (encoded: bytes)  // least significant byte first
    ensures Reversed(encoded) == Minimal(length) && |encoded| == |Minimal(length)|
  {
    encoded := [];
    var rest := length;
    while rest > 0
      invariant Minimal(length) == Minimal(rest) + Reversed(encoded)
    {
      ReversedAppend(encoded, rest % 256);
      assert Minimal(rest) + Reversed(encoded) == Minimal(rest / 256) + ([rest % 256] + Reversed(encoded));
      encoded := encoded + [rest % 256];
      rest := rest / 256;
    }
    ReversedLength(encoded);
  }

  method AppendReversed(out: bytes, encoded: bytes) returns (longer: bytes)
    ensures longer == out + Reversed(encoded)
  {
    longer := out;
    var i := |encoded|;
    assert encoded[..i] == encoded;
    while i > 0
      invariant 0 <= i <= |encoded|
      invariant longer + Reversed(encoded[..i]) == out + Reversed(encoded)
    {
      i := i - 1;
      assert encoded[..i + 1] == encoded[..i] + [encoded[i]];
      ReversedAppend(encoded[..i], encoded[i]);
      assert longer + ([encoded[i]] + Reversed(encoded[..i])) == longer + [encoded[i]] + Reversed(encoded[..i]);
      longer := longer + [encoded[i]];
    }
    assert encoded[..i] == [] && longer + Reversed([]) == longer;
  }

  method AppendDerLength(out: bytes, length: nat) returns (longer: bytes)
    requires length < SIZE_LIMIT
    ensures longer == out + DerLength(length)
  {
    if length < 0x80 { return out + [length]; }
    hide Minimal, Reversed;
    var encoded := BytesOfLength(length);
    Pow256Values();
    MinimalLength(length, 8);
    longer := AppendReversed(out + [0x80 + |encoded|], encoded);
    assert longer == out + ([0x80 + |encoded|] + Reversed(encoded));
  }

  function Reversed(b: bytes): bytes {
    if b == [] then [] else [b[|b| - 1]] + Reversed(b[..|b| - 1])
  }

  lemma ReversedAppend(b: bytes, x: byte)
    ensures Reversed(b + [x]) == [x] + Reversed(b)
  {
    assert (b + [x])[..|b|] == b;
  }

  lemma {:induction false} ReversedLength(b: bytes)
    ensures |Reversed(b)| == |b|
  {
    if b != [] { ReversedLength(b[..|b| - 1]); }
  }

  /** Length at `at`, with the offset just behind it. */
  function ReadLength(b: bytes, at: nat): (r: Result<(nat, nat)>)
    ensures r.Ok? ==> at < r.value.1 <= |b|
  {
    if at >= |b| then Err(ProtocolUnsupported)
    else if b[at] < 0x80 then Ok((b[at], at + 1))
    else
      var count := b[at] - 0x80;
      if count == 0 || count > 8 || at + 1 + count > |b| then Err(ProtocolUnsupported)
      else Ok((FromBe(b[at + 1..at + 1 + count]), at + 1 + count))
  }

  method ReadLengthBytes(b: bytes, at: nat) returns (r: Result<(nat, nat)>)
    ensures r == ReadLength(b, at)
  {
    if at >= |b| { return Err(ProtocolUnsupported); }
    var first := b[at];
    if first < 0x80 { return Ok((first, at + 1)); }
    var count := first - 0x80;
    if count == 0 || count > 8 || at + 1 + count > |b| { return Err(ProtocolUnsupported); }
    var length: nat := 0;
    var i := 0;
    while i < count
      invariant 0 <= i <= count
      invariant length == FromBe(b[at + 1..at + 1 + i])
    {
      assert b[at + 1..at + 1 + (i + 1)][..i] == b[at + 1..at + 1 + i];
      length := 256 * length + b[at + 1 + i] as nat;
      i := i + 1;
    }
    r := Ok((length, at + 1 + count));
  }

  /** Every length below 2^64 reads back, with the offset of what follows it. */
  lemma LengthRoundTrip(b: bytes, at: nat, n: nat, rest: bytes)
    requires n < SIZE_LIMIT && at <= |b| && b[at..] == DerLength(n) + rest
    ensures ReadLength(b, at) == Ok((n, at + |DerLength(n)|))
  {
    hide Minimal, FromBe;
    assert b[at] == b[at..][0];
    if n >= 0x80 {
      Pow256Values();
      MinimalLength(n, 8);
      MinimalValue(n);
      var k := |Minimal(n)|;
      assert b[at + 1..at + 1 + k] == b[at..][1..1 + k] == Minimal(n);
    }
  }

  // ------------------------------------------------------------------ tokens

  function Tlv(tag: byte, content: bytes): bytes
    requires |content| < SIZE_LIMIT
  {
    [tag] + DerLength(|content|) + content
  }

  predicate StartsWithNtlm(b: bytes) { NTLM_SIGNATURE <= b }

  predicate Descends(tag: byte) { tag / 0x20 % 2 == 1 || tag == SEQUENCE || tag == APPLICATION_0 }

  /** findNtlmOctetString */
  function Find(b: bytes, depth: nat): Result<bytes>
    decreases 17 - depth, 1, 0
  {
    if depth > 16 then Err(ProtocolUnsupported)
    else if StartsWithNtlm(b) then Ok(b)
    else Scan(b, 0, depth)
  }

  /** The loop of findNtlmOctetString from offset `at`. */
  function Scan(b: bytes, at: nat, depth: nat): Result<bytes>
    requires depth <= 16
    decreases 17 - depth, 0, |b| - at
  {
    if at >= |b| then Err(ProtocolUnsupported)
    else match ReadLength(b, at + 1)
      case Err(e) => Err(e)
      case Ok((length, start)) =>
        if start + length > |b| then Err(ProtocolUnsupported)
        else
          var content := b[start..start + length];
          if b[at] == OCTET_STRING && StartsWithNtlm(content) then Ok(content)
          else if Descends(b[at]) then
            var nested := Find(content, depth + 1);
            if nested.Ok? || nested.code != ProtocolUnsupported then nested
            else Scan(b, start + length, depth)
          else Scan(b, start + length, depth)
  }

  method FindBytes(b: bytes, depth: nat) returns (r: Result<bytes>)
    ensures r == Find(b, depth)
    decreases 17 - depth
  {
    hide ReadLength, StartsWithNtlm, Descends;
    if depth > 16 { return Err(ProtocolUnsupported); }
    if StartsWithNtlm(b) { return Ok(b); }
    var at := 0;
    while at < |b|
      invariant Scan(b, 0, depth) == Scan(b, at, depth)
      decreases |b| - at
    {
      var read := ReadLengthBytes(b, at + 1);
      if read.Err? { return Err(read.code); }
      var (length, start) := read.value;
      if start + length > |b| { return Err(ProtocolUnsupported); }
      var content := b[start..start + length];
      if b[at] == OCTET_STRING && StartsWithNtlm(content) { return Ok(content); }
      if Descends(b[at]) {
        var nested := FindBytes(content, depth + 1);
        if nested.Ok? || nested.code != ProtocolUnsupported { return nested; }
      }
      at := start + length;
    }
    r := Err(ProtocolUnsupported);
  }

  const TOKEN_LIMIT: nat := SIZE_LIMIT - 128

  function NegTokenInit(token: bytes): bytes
    requires |token| < TOKEN_LIMIT
  {
    var mechTypes := Tlv(CONTEXT_0, Tlv(SEQUENCE, Tlv(OBJECT_IDENTIFIER, NTLM_OID)));
    var mechToken := Tlv(CONTEXT_2, Tlv(OCTET_STRING, token));
    var negotiation := Tlv(CONTEXT_0, Tlv(SEQUENCE, mechTypes + mechToken));
    Tlv(APPLICATION_0, Tlv(OBJECT_IDENTIFIER, SPNEGO_OID) + negotiation)
  }

  function NegTokenResp(token: bytes): bytes
    requires |token| < TOKEN_LIMIT
  {
    Tlv(CONTEXT_1, Tlv(SEQUENCE, Tlv(CONTEXT_2, Tlv(OCTET_STRING, token))))
  }

  function Unwrap(b: bytes): Result<bytes> { Find(b, 0) }

  // ------------------------------------------------------------- properties

  /** One step of the search over an element in place. */
  lemma ScanTlv(b: bytes, at: nat, depth: nat, tag: byte, content: bytes, rest: bytes)
    requires depth <= 16 && |content| < SIZE_LIMIT && at <= |b| && b[at..] == Tlv(tag, content) + rest
    ensures Scan(b, at, depth) ==
            if tag == OCTET_STRING && StartsWithNtlm(content) then Ok(content)
            else if Descends(tag)
                    && (Find(content, depth + 1).Ok? || Find(content, depth + 1).code != ProtocolUnsupported)
            then Find(content, depth + 1)
            else Scan(b, |b| - |rest|, depth)
  {
    hide DerLength, Find, Descends, ReadLength, StartsWithNtlm;
    var header := [tag] + DerLength(|content|);
    assert b[at] == b[at..][0] == tag;
    assert b[at + 1..] == b[at..][1..] == DerLength(|content|) + (content + rest);
    LengthRoundTrip(b, at + 1, |content|, content + rest);
    var start := at + |header|;
    assert b[at..][|header|..|header| + |content|] == content;
    assert b[start..start + |content|] == b[at..][|header|..|header| + |content|];
  }

  lemma NotASignature(b: bytes)
    requires b != [] && b[0] != 0x4E
    ensures !StartsWithNtlm(b)
  {
    assert NTLM_SIGNATURE[0] == 0x4E;
  }

  /** Searching a single element. */
  lemma FindOne(tag: byte, content: bytes, depth: nat)
    requires depth <= 16 && |content| < SIZE_LIMIT && tag != 0x4E
    ensures Find(Tlv(tag, content), depth) ==
            if tag == OCTET_STRING && StartsWithNtlm(content) then Ok(content)
            else if Descends(tag)
                    && (Find(content, depth + 1).Ok? || Find(content, depth + 1).code != ProtocolUnsupported)
            then Find(content, depth + 1)
            else Err(ProtocolUnsupported)
  {
    hide DerLength, Descends;
    var b := Tlv(tag, content);
    NotASignature(b);
    assert b[0..] == b + [];
    ScanTlv(b, 0, depth, tag, content, []);
  }

  /** Searching two elements: the second is reached when the first gives nothing. */
  lemma FindTwo(tag: byte, content: bytes, tag': byte, content': bytes, depth: nat)
    requires depth <= 16 && |content| < SIZE_LIMIT && |content'| < SIZE_LIMIT && tag != 0x4E
    requires !(tag == OCTET_STRING && StartsWithNtlm(content))
    requires Descends(tag) ==> Find(content, depth + 1) == Err(ProtocolUnsupported)
    ensures Find(Tlv(tag, content) + Tlv(tag', content'), depth) ==
            if tag' == OCTET_STRING && StartsWithNtlm(content') then Ok(content')
            else if Descends(tag')
                    && (Find(content', depth + 1).Ok? || Find(content', depth + 1).code != ProtocolUnsupported)
            then Find(content', depth + 1)
            else Err(ProtocolUnsupported)
  {
    hide DerLength, Descends;
    var first, second := Tlv(tag, content), Tlv(tag', content');
    var b := first + second;
    NotASignature(b);
    assert b[0..] == first + second;
    ScanTlv(b, 0, depth, tag, content, second);
    assert b[|first|..] == second + [];
    ScanTlv(b, |first|, depth, tag', content', []);
  }

  lemma DescendsInto()
    ensures Descends(SEQUENCE) && Descends(APPLICATION_0) && Descends(CONTEXT_0) && Descends(CONTEXT_1)
    ensures Descends(CONTEXT_2) && !Descends(OCTET_STRING) && !Descends(OBJECT_IDENTIFIER)
  {
  }

  /** The mechTypes branch holds no token, at whatever depth it is met. */
  lemma MechTypesHoldNothing(depth: nat)
    requires depth <= 14
    ensures Find(Tlv(SEQUENCE, Tlv(OBJECT_IDENTIFIER, NTLM_OID)), depth) == Err(ProtocolUnsupported)
  {
    hide Find, Tlv, Descends;
    DescendsInto();
    FindOne(OBJECT_IDENTIFIER, NTLM_OID, depth + 1);
    TlvLength(OBJECT_IDENTIFIER, NTLM_OID);
    FindOne(SEQUENCE, Tlv(OBJECT_IDENTIFIER, NTLM_OID), depth);
  }

  lemma TlvLength(tag: byte, content: bytes)
    requires |content| < SIZE_LIMIT
    ensures |content| + 2 <= |Tlv(tag, content)| <= |content| + 10
  {
  }

  /** Unwrapping either token gives back exactly a token with the NTLMSSP
      signature, and nothing else. */
  lemma UnwrapResp(token: bytes)
    requires |token| < TOKEN_LIMIT
    ensures Unwrap(NegTokenResp(token)) == if StartsWithNtlm(token) then Ok(token) else Err(ProtocolUnsupported)
  {
    hide Find, Tlv, Descends, StartsWithNtlm;
    DescendsInto();
    var inner := Tlv(OCTET_STRING, token);
    TlvLength(OCTET_STRING, token);
    TlvLength(CONTEXT_2, inner);
    TlvLength(SEQUENCE, Tlv(CONTEXT_2, inner));
    FindOne(OCTET_STRING, token, 3);
    FindOne(CONTEXT_2, inner, 2);
    FindOne(SEQUENCE, Tlv(CONTEXT_2, inner), 1);
    FindOne(CONTEXT_1, Tlv(SEQUENCE, Tlv(CONTEXT_2, inner)), 0);
  }

  lemma UnwrapInit(token: bytes)
    requires |token| < TOKEN_LIMIT
    ensures Unwrap(NegTokenInit(token)) == if StartsWithNtlm(token) then Ok(token) else Err(ProtocolUnsupported)
  {
    hide Find, Tlv, Descends, StartsWithNtlm;
    DescendsInto();
    var oid := Tlv(OBJECT_IDENTIFIER, NTLM_OID);
    TlvLength(OBJECT_IDENTIFIER, NTLM_OID);
    TlvLength(SEQUENCE, oid);
    TlvLength(CONTEXT_0, Tlv(SEQUENCE, oid));
    var inner := Tlv(OCTET_STRING, token);
    TlvLength(OCTET_STRING, token);
    TlvLength(CONTEXT_2, inner);
    var both := Tlv(CONTEXT_0, Tlv(SEQUENCE, oid)) + Tlv(CONTEXT_2, inner);
    TlvLength(SEQUENCE, both);
    TlvLength(CONTEXT_0, Tlv(SEQUENCE, both));
    TlvLength(OBJECT_IDENTIFIER, SPNEGO_OID);
    MechTypesHoldNothing(4);
    FindOne(OCTET_STRING, token, 4);
    FindTwo(CONTEXT_0, Tlv(SEQUENCE, oid), CONTEXT_2, inner, 3);
    FindOne(SEQUENCE, both, 2);
    FindTwo(OBJECT_IDENTIFIER, SPNEGO_OID, CONTEXT_0, Tlv(SEQUENCE, both), 1);
    FindOne(APPLICATION_0, Tlv(OBJECT_IDENTIFIER, SPNEGO_OID) + Tlv(CONTEXT_0, Tlv(SEQUENCE, both)), 0);
  }

  /** The implementation adds offset and length in 64 bits. Its bounds test says what
      the unbounded one says exactly when the sum does not wrap. */
  lemma BoundsTestExact(b: bytes, start: nat, length: nat)
    requires start <= |b| < SIZE_LIMIT && length < SIZE_LIMIT
    ensures ((start + length) % SIZE_LIMIT > |b| <==> start + length > |b|) <==> start + length < SIZE_LIMIT
  {
    if start + length >= SIZE_LIMIT {
      assert (start + length) % SIZE_LIMIT == start + length - SIZE_LIMIT;
    }
  }

  /** On the bytes read: for a token of fewer than 2^63 bytes the two disagree exactly
      if the length has eight bytes and reaches within that many of 2^64. */
  lemma BoundsTestOnBytes(b: bytes, at: nat)
    requires |b| < SIZE_LIMIT / 2 && ReadLength(b, at).Ok?
    ensures var (length, start) := ReadLength(b, at).value;
            ((start + length) % SIZE_LIMIT > |b| <==> start + length > |b|)
            <==> !(b[at] == 0x88 && FromBe(b[at + 1..at + 9]) >= SIZE_LIMIT - (at + 9))
  {
    hide FromBe;
    var (length, start) := ReadLength(b, at).value;
    if b[at] >= 0x80 {
      var count := b[at] - 0x80;
      FromBeRoundTrip(b[at + 1..at + 1 + count]);
      Pow256Values();
      if count < 8 {
        Pow256Monotone(count, 7);
        assert Pow256(8) == 256 * Pow256(7);
      }
    }
    BoundsTestExact(b, start, length);
  }

  /** A token that shows it: an octet string without content whose length is written
      as 2^64 - 1. The sum in 64 bits is 9, within the ten bytes there are. */
  lemma TestMissesTruncation()
    ensures var b := [OCTET_STRING, 0x88] + Be(SIZE_LIMIT - 1, 8);
            && |b| == 10 && ReadLength(b, 1) == Ok((SIZE_LIMIT - 1, 10))
            && (10 + (SIZE_LIMIT - 1)) % SIZE_LIMIT == 9
            && Find(b, 0) == Err(ProtocolUnsupported)
  {
    hide FromBe, Be;
    Pow256Values();
    BeRoundTrip(SIZE_LIMIT - 1, 8);
    var b := [OCTET_STRING, 0x88] + Be(SIZE_LIMIT - 1, 8);
    assert b[2..10] == Be(SIZE_LIMIT - 1, 8);
  }

  // ----------------------------------------- tokens as a strict reader reads them

  /** Contents and rest behind an element with the given tag. */
  function Expect(b: bytes, tag: byte): Result<(bytes, bytes)> {
    if b == [] || b[0] != tag then Err(ProtocolUnsupported)
    else match ReadLength(b, 1)
      case Err(e) => Err(e)
      case Ok((length, start)) =>
        if start + length > |b| then Err(ProtocolUnsupported)
        else Ok((b[start..start + length], b[start + length..]))
  }

  lemma ExpectTlv(tag: byte, content: bytes, rest: bytes)
    requires |content| < SIZE_LIMIT
    ensures Expect(Tlv(tag, content) + rest, tag) == Ok((content, rest))
  {
    hide DerLength, ReadLength;
    var b := Tlv(tag, content) + rest;
    assert b[1..] == DerLength(|content|) + (content + rest);
    LengthRoundTrip(b, 1, |content|, content + rest);
    var start := 1 + |DerLength(|content|)|;
    assert b[start..start + |content|] == content && b[start + |content|..] == rest;
  }

  lemma ExpectOnly(tag: byte, content: bytes)
    requires |content| < SIZE_LIMIT
    ensures Expect(Tlv(tag, content), tag) == Ok((content, []))
  {
    hide Tlv, Expect;
    ExpectTlv(tag, content, []);
    assert Tlv(tag, content) + [] == Tlv(tag, content);
  }

  /** `b` is one element with this tag, holding `content`. */
  predicate Is(b: bytes, tag: byte, content: bytes) { Expect(b, tag) == Ok((content, [])) }

  /** NegTokenInit (section 4.2.1 of RFC 4178) for the mechanism 1.3.6.1.4.1.311.2.2.10 in
      the framing of section 3.1 of RFC 2743 with the identifier 1.3.6.1.5.5.2, element by
      element. */
  lemma InitAsInRfc4178(token: bytes)
      returns (application: bytes, choice: bytes, negotiation: bytes, fields: bytes, mechanisms: bytes, list: bytes,
               last: bytes, wrapped: bytes)
    requires |token| < TOKEN_LIMIT
    ensures Is(NegTokenInit(token), 0x60, application)
    ensures Expect(application, 0x06) == Ok(([0x2B, 6, 1, 5, 5, 2], choice))
    ensures Is(choice, 0xA0, negotiation) && Is(negotiation, 0x30, fields)
    ensures Expect(fields, 0xA0) == Ok((mechanisms, last))
    ensures Is(mechanisms, 0x30, list) && Is(list, 0x06, [0x2B, 6, 1, 4, 1, 0x82, 0x37, 2, 2, 0x0A])
    ensures Is(last, 0xA2, wrapped) && Is(wrapped, 0x04, token)
  {
    hide Tlv, Expect;
    list := Tlv(OBJECT_IDENTIFIER, NTLM_OID);
    TlvLength(OBJECT_IDENTIFIER, NTLM_OID);
    ExpectOnly(OBJECT_IDENTIFIER, NTLM_OID);
    mechanisms := Tlv(SEQUENCE, list);
    TlvLength(SEQUENCE, list);
    ExpectOnly(SEQUENCE, list);
    TlvLength(CONTEXT_0, mechanisms);
    wrapped := Tlv(OCTET_STRING, token);
    TlvLength(OCTET_STRING, token);
    ExpectOnly(OCTET_STRING, token);
    TlvLength(CONTEXT_2, wrapped);
    ExpectOnly(CONTEXT_2, wrapped);
    last := Tlv(CONTEXT_2, wrapped);
    fields := Tlv(CONTEXT_0, mechanisms) + last;
    ExpectTlv(CONTEXT_0, mechanisms, last);
    negotiation := Tlv(SEQUENCE, fields);
    TlvLength(SEQUENCE, fields);
    ExpectOnly(SEQUENCE, fields);
    TlvLength(CONTEXT_0, negotiation);
    ExpectOnly(CONTEXT_0, negotiation);
    TlvLength(OBJECT_IDENTIFIER, SPNEGO_OID);
    choice := Tlv(CONTEXT_0, negotiation);
    application := Tlv(OBJECT_IDENTIFIER, SPNEGO_OID) + choice;
    ExpectTlv(OBJECT_IDENTIFIER, SPNEGO_OID, choice);
    TlvLength(APPLICATION_0, application);
    ExpectOnly(APPLICATION_0, application);
  }

  /** NegTokenResp (section 4.2.2 of RFC 4178) with the response token alone. */
  lemma RespAsInRfc4178(token: bytes) returns (choice: bytes, fields: bytes, wrapped: bytes)
    requires |token| < TOKEN_LIMIT
    ensures Is(NegTokenResp(token), 0xA1, choice) && Is(choice, 0x30, fields) && Is(fields, 0xA2, wrapped)
    ensures Is(wrapped, 0x04, token)
  {
    hide Tlv, Expect;
    wrapped := Tlv(OCTET_STRING, token);
    TlvLength(OCTET_STRING, token);
    ExpectOnly(OCTET_STRING, token);
    fields := Tlv(CONTEXT_2, wrapped);
    TlvLength(CONTEXT_2, wrapped);
    ExpectOnly(CONTEXT_2, wrapped);
    choice := Tlv(SEQUENCE, fields);
    TlvLength(SEQUENCE, fields);
    ExpectOnly(SEQUENCE, fields);
    TlvLength(CONTEXT_1, choice);
    ExpectOnly(CONTEXT_1, choice);
  }

  /** Exactly which DER lengths are read (section 8.1.3 of X.690): one byte below 0x80, or
      1 to 8 bytes in network order behind their number. */
  lemma LengthAccepted(b: bytes, at: nat)
    ensures ReadLength(b, at).Ok? <==> at < |b| && (b[at] < 0x80 || (0x81 <= b[at] <= 0x88 && at + b[at] - 0x7F <= |b|))
    ensures ReadLength(b, at).Ok? && b[at] < 0x80 ==> ReadLength(b, at).value == (b[at] as nat, at + 1)
    ensures ReadLength(b, at).Ok? && b[at] >= 0x80 ==>
      var end := at + b[at] - 0x7F;
      ReadLength(b, at).value.1 == end && Be(ReadLength(b, at).value.0, end - at - 1) == b[at + 1..end]
  {
    hide Be, FromBe;
    if at < |b| && b[at] >= 0x80 && at + b[at] - 0x7F <= |b| { FromBeRoundTrip(b[at + 1..at + b[at] - 0x7F]); }
  }

  /** Whatever the search returns starts with the NTLMSSP signature and is a part of the
      input. */
  lemma {:induction false} FindSound(b: bytes, depth: nat) returns (from: nat)
    requires Find(b, depth).Ok?
    ensures var token := Find(b, depth).value;
            && from + |token| <= |b| && token == b[from..from + |token|]
            && |token| >= 8 && token[..8] == [0x4E, 0x54, 0x4C, 0x4D, 0x53, 0x53, 0x50, 0]
    decreases 17 - depth, 1, 0
  {
    hide Descends, ReadLength;
    if StartsWithNtlm(b) {
      from := 0;
      SignaturePrefix(b);
    } else {
      from := ScanSound(b, 0, depth);
    }
  }

  /** The signature test, byte by byte: NTLMSSP and a zero byte. */
  lemma SignatureIs(b: bytes)
    ensures StartsWithNtlm(b) <==> |b| >= 8 && b[..8] == [0x4E, 0x54, 0x4C, 0x4D, 0x53, 0x53, 0x50, 0]
  {
  }

  lemma SignaturePrefix(b: bytes)
    requires StartsWithNtlm(b)
    ensures |b| >= 8 && b[..8] == [0x4E, 0x54, 0x4C, 0x4D, 0x53, 0x53, 0x50, 0] && b[0..|b|] == b
  {
  }

  lemma {:induction false} ScanSound(b: bytes, at: nat, depth: nat) returns (from: nat)
    requires depth <= 16 && Scan(b, at, depth).Ok?
    ensures var token := Scan(b, at, depth).value;
            && from + |token| <= |b| && token == b[from..from + |token|]
            && |token| >= 8 && token[..8] == [0x4E, 0x54, 0x4C, 0x4D, 0x53, 0x53, 0x50, 0]
    decreases 17 - depth, 0, |b| - at
  {
    hide Descends, ReadLength, StartsWithNtlm, Find;
    var (length, start) := ReadLength(b, at + 1).value;
    var content := b[start..start + length];
    if b[at] == OCTET_STRING && StartsWithNtlm(content) {
      from := start;
      SignaturePrefix(content);
    } else if Descends(b[at]) && Find(content, depth + 1).Ok? {
      var inner := FindSound(content, depth + 1);
      from := start + inner;
      PartOfPart(b, start, length, inner, Find(content, depth + 1).value);
    } else {
      from := ScanSound(b, start + length, depth);
    }
  }

  lemma PartOfPart(b: bytes, start: nat, length: nat, inner: nat, token: bytes)
    requires start + length <= |b| && inner + |token| <= length
    requires token == b[start..start + length][inner..inner + |token|]
    ensures token == b[start + inner..start + inner + |token|]
  {
    SliceOfSlice(b, start, start + length, start + inner, start + inner + |token|);
  }
}
