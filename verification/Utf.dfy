/** UTF-8 and UTF-16LE conversion. */
module Utf {
  import opened Bytes

  // ------------------------------------- reference encodings of scalar values

  /** Unicode scalar values: code points that are not surrogates. */
  type scalar = c: nat | c < 0xD800 || 0xE000 <= c < 0x11_0000

  /** Shortest-form UTF-8 of one scalar value (section 3 of RFC 3629). */
  function Utf8Of(c: scalar): (r: bytes)
    ensures 1 <= |r| <= 4
  {
    if c < 0x80 then [c]
    else if c < 0x800 then [0xC0 + c / 0x40, 0x80 + c % 0x40]
    else
      // successive shifts by six bits
      var q1 := c / 0x40;
      var q2 := q1 / 0x40;
      if c < 0x1_0000 then [0xE0 + q2, 0x80 + q1 % 0x40, 0x80 + c % 0x40]
      else [0xF0 + q2 / 0x40, 0x80 + q2 % 0x40, 0x80 + q1 % 0x40, 0x80 + c % 0x40]
  }

  function Unit(u: nat): (r: bytes)
    requires u < 0x1_0000
    ensures |r| == 2
  {
    [u % 256, u / 256]
  }

  /** UTF-16LE of one scalar value. */
  function Utf16Of(c: scalar): (r: bytes)
    ensures |r| == if c < 0x1_0000 then 2 else 4
  {
    if c < 0x1_0000 then Unit(c)
    else Unit(0xD800 + (c - 0x1_0000) / 0x400) + Unit(0xDC00 + (c - 0x1_0000) % 0x400)
  }

  function Utf8(text: seq<scalar>): bytes {
    if text == [] then [] else Utf8Of(text[0]) + Utf8(text[1..])
  }

  function Utf16(text: seq<scalar>): bytes {
    if text == [] then [] else Utf16Of(text[0]) + Utf16(text[1..])
  }

  // ------------------------------------------------- the converters' one step

  /** Code point at the front of a UTF-8 string as the encoder reads it, with the
      number of bytes used. Overlong forms and surrogates are let through. */
  function ReadUtf8(t: bytes): (r: Result<(nat, nat)>)
    requires t != []
    ensures r.Ok? ==> 1 <= r.value.1 <= |t|
  {
    var a := t[0];
    if a < 0x80 then Ok((a, 1))
    else if 0xC0 <= a < 0xE0 && |t| > 1 then
      if !Continuation(t[1]) then Err(InvalidArgument)
      else Ok((Shift6(a - 0xC0, t[1]), 2))
    else if 0xE0 <= a < 0xF0 && |t| > 2 then
      if !Continuation(t[1]) || !Continuation(t[2]) then Err(InvalidArgument)
      else Ok((Shift6(Shift6(a - 0xE0, t[1]), t[2]), 3))
    else if 0xF0 <= a < 0xF8 && |t| > 3 then
      if !Continuation(t[1]) || !Continuation(t[2]) || !Continuation(t[3]) then Err(InvalidArgument)
      else Ok((Shift6(Shift6(Shift6(a - 0xF0, t[1]), t[2]), t[3]), 4))
    else Err(InvalidArgument)
  }

  /** `bits` shifted left by six, with the payload of a continuation byte below. */
  function Shift6(bits: nat, continuation: byte): nat {
    bits * 0x40 + continuation % 0x40
  }

  predicate Continuation(b: byte) { 0x80 <= b < 0xC0 }

  function CodeUnits(codePoint: nat): Result<bytes> {
    if codePoint < 0x1_0000 then Ok(Unit(codePoint))
    else if codePoint < 0x11_0000 then
      Ok(Unit(0xD800 + (codePoint - 0x1_0000) / 0x400) + Unit(0xDC00 + (codePoint - 0x1_0000) % 0x400))
    else Err(InvalidArgument)
  }

  function Append(prefix: bytes, r: Result<bytes>): Result<bytes> {
    match r
    case Err(e) => Err(e)
    case Ok(rest) => Ok(prefix + rest)
  }

  /** encodeUtf16Le; a thrown exception is `Err(InvalidArgument)`. */
  function EncodeUtf16Le(text: bytes): Result<bytes>
    decreases |text|
  {
    if text == [] then Ok([])
    else match ReadUtf8(text)
      case Err(e) => Err(e)
      case Ok((codePoint, used)) =>
        match CodeUnits(codePoint)
        case Err(e) => Err(e)
        case Ok(units) => Append(units, EncodeUtf16Le(text[used..]))
  }

  function UnitAt(data: bytes): nat
    requires |data| >= 2
  {
    data[0] as int + 256 * data[1] as int
  }

  /** Scalar value at the front of a UTF-16LE string, with the bytes used. */
  function ReadUtf16(data: bytes): (r: Result<(scalar, nat)>)
    requires |data| >= 2
    ensures r.Ok? ==> 2 <= r.value.1 <= |data| && r.value.1 % 2 == 0
  {
    var unit := UnitAt(data);
    if 0xD800 <= unit < 0xDC00 then
      if |data| < 4 then Err(IoError)
      else
        var next := UnitAt(data[2..]);
        if next < 0xDC00 || next >= 0xE000 then Err(IoError)
        else Ok((0x1_0000 + (unit - 0xD800) * 0x400 + (next - 0xDC00), 4))
    else if 0xDC00 <= unit < 0xE000 then Err(IoError)
    else Ok((unit, 2))
  }

  function DecodeUnits(data: bytes): Result<bytes>
    requires |data| % 2 == 0
    decreases |data|
  {
    if data == [] then Ok([])
    else match ReadUtf16(data)
      case Err(e) => Err(e)
      case Ok((c, used)) => Append(Utf8Of(c), DecodeUnits(data[used..]))
  }

  function DecodeUtf16Le(data: bytes): Result<bytes> {
    if |data| % 2 != 0 then Err(IoError) else DecodeUnits(data)
  }

  // ---------------------------------------------------------------- the loops

  lemma AppendLaws(a: bytes, b: bytes, r: Result<bytes>)
    ensures Append(a, Append(b, r)) == Append(a + b, r) && Append([], r) == r
  {
    if r.Ok? {
      assert a + (b + r.value) == (a + b) + r.value;
      assert Append([], r) == Ok([] + r.value);
      assert [] + r.value == r.value;
    }
  }

  lemma AppendError(a: bytes, e: ErrorCode)
    ensures Append(a, Err(e)) == Err(e)
  {
  }

  lemma DecodedAll(out: bytes)
    ensures Append(out, DecodeUnits([])) == Ok(out)
  {
    var none: bytes := [];
    assert DecodeUnits(none) == Ok(none);
    assert Append(out, Ok(none)) == Ok(out + none);
    assert out + none == out;
  }

  method EncodeUtf16LeBytes(text: bytes) returns (r: Result<bytes>)
    ensures r == EncodeUtf16Le(text)
  {
    hide ReadUtf8, CodeUnits;
    var out: bytes := [];
    var i := 0;
    assert text[0..] == text;
    AppendLaws([], [], EncodeUtf16Le(text));
    while i < |text|
      invariant 0 <= i <= |text|
      invariant EncodeUtf16Le(text) == Append(out, EncodeUtf16Le(text[i..]))
    {
      var read := ReadUtf8(text[i..]);
      if read.Err? { return Err(read.code); }
      var (codePoint, used) := read.value;
      var units := CodeUnits(codePoint);
      if units.Err? { return Err(units.code); }
      AppendLaws(out, units.value, EncodeUtf16Le(text[i..][used..]));
      assert text[i..][used..] == text[i + used..];
      out := out + units.value;
      i := i + used;
    }
    assert text[i..] == [] && out + [] == out;
    r := Ok(out);
  }

  lemma DecodeStep(data: bytes, at: nat)
    requires at < |data| && (|data| - at) % 2 == 0
    ensures match ReadUtf16(data[at..])
            case Err(e) => DecodeUnits(data[at..]) == Err(e)
            case Ok((c, used)) =>
              DecodeUnits(data[at..]) == Append(Utf8Of(c), DecodeUnits(data[at + used..]))
  {
    hide ReadUtf16, Utf8Of;
    if ReadUtf16(data[at..]).Ok? {
      var used := ReadUtf16(data[at..]).value.1;
      assert data[at..][used..] == data[at + used..];
    }
  }

  method DecodeUnitsBytes(data: bytes) returns (r: Result<bytes>)
    requires |data| % 2 == 0
    ensures r == DecodeUnits(data)
  {
    hide *;
    var out: bytes := [];
    var offset := 0;
    assert data[0..] == data;
    AppendLaws([], [], DecodeUnits(data));
    while offset < |data|
      invariant 0 <= offset <= |data| && (|data| - offset) % 2 == 0
      invariant DecodeUnits(data) == Append(out, DecodeUnits(data[offset..]))
    {
      DecodeStep(data, offset);
      var read := ReadUtf16(data[offset..]);
      if read.Err? {
        AppendError(out, read.code);
        return Err(read.code);
      }
      var (c, used) := read.value;
      AppendLaws(out, Utf8Of(c), DecodeUnits(data[offset + used..]));
      out := out + Utf8Of(c);
      offset := offset + used;
    }
    assert data[offset..] == [];
    DecodedAll(out);
    r := Ok(out);
  }

  method DecodeUtf16LeBytes(data: bytes) returns (r: Result<bytes>)
    ensures r == DecodeUtf16Le(data)
  {
    if |data| % 2 != 0 { return Err(IoError); }
    r := DecodeUnitsBytes(data);
  }

  // ------------------------------------------------------------- properties

  lemma ReadUtf16OfScalar(c: scalar, rest: bytes)
    ensures ReadUtf16(Utf16Of(c) + rest) == Ok((c, |Utf16Of(c)|))
  {
    var data := Utf16Of(c) + rest;
    if c >= 0x1_0000 {
      var hi, lo := (c - 0x1_0000) / 0x400, (c - 0x1_0000) % 0x400;
      assert data[..2] == Unit(0xD800 + hi) && data[2..4] == Unit(0xDC00 + lo);
    }
  }

  lemma UnitReencodes(data: bytes)
    requires |data| >= 2
    ensures Unit(UnitAt(data)) == data[..2]
  {
  }

  lemma ScalarOfReadUtf16(data: bytes)
    requires |data| >= 2 && ReadUtf16(data).Ok?
    ensures var (c, used) := ReadUtf16(data).value; data[..used] == Utf16Of(c)
  {
    hide Unit;
    var (c, used) := ReadUtf16(data).value;
    UnitReencodes(data);
    if used == 4 {
      UnitReencodes(data[2..]);
      assert (c - 0x1_0000) / 0x400 == UnitAt(data) - 0xD800;
      assert (c - 0x1_0000) % 0x400 == UnitAt(data[2..]) - 0xDC00;
      assert data[..4] == data[..2] + data[2..][..2];
    }
  }

  lemma ReadUtf8OfScalar(c: scalar, rest: bytes)
    ensures ReadUtf8(Utf8Of(c) + rest) == Ok((c, |Utf8Of(c)|))
  {
    var t := Utf8Of(c) + rest;
    assert t[..|Utf8Of(c)|] == Utf8Of(c);
    assert Shift6(c / 0x40, 0x80 + c % 0x40) == c;
    if c >= 0x800 {
      assert Shift6(c / 0x40 / 0x40, 0x80 + c / 0x40 % 0x40) == c / 0x40;
    }
    if c >= 0x1_0000 {
      assert Shift6(c / 0x40 / 0x40 / 0x40, 0x80 + c / 0x40 / 0x40 % 0x40) == c / 0x40 / 0x40;
    }
  }

  /** The decoder turns the UTF-16LE of any text into its UTF-8. */
  lemma {:induction false} DecodeMeaning(text: seq<scalar>)
    ensures |Utf16(text)| % 2 == 0 && DecodeUtf16Le(Utf16(text)) == Ok(Utf8(text))
    decreases |text|
  {
    hide ReadUtf16, Utf16Of, Utf8Of;
    if text != [] {
      DecodeMeaning(text[1..]);
      ReadUtf16OfScalar(text[0], Utf16(text[1..]));
      assert Utf16(text)[|Utf16Of(text[0])|..] == Utf16(text[1..]);
    }
  }

  /** The encoder turns the UTF-8 of any text into its UTF-16LE. */
  lemma {:induction false} EncodeMeaning(text: seq<scalar>)
    ensures EncodeUtf16Le(Utf8(text)) == Ok(Utf16(text))
    decreases |text|
  {
    hide ReadUtf8, Utf8Of;
    if text != [] {
      EncodeMeaning(text[1..]);
      ReadUtf8OfScalar(text[0], Utf8(text[1..]));
      assert Utf8(text)[|Utf8Of(text[0])|..] == Utf8(text[1..]);
    }
  }

  lemma {:induction false} TextOfUnits(data: bytes) returns (text: seq<scalar>)
    requires |data| % 2 == 0 && DecodeUnits(data).Ok?
    ensures data == Utf16(text)
    decreases |data|
  {
    hide ReadUtf16, Utf16Of, Utf8Of;
    if data == [] {
      text := [];
    } else {
      var (c, used) := ReadUtf16(data).value;
      var rest := TextOfUnits(data[used..]);
      ScalarOfReadUtf16(data);
      text := [c] + rest;
      assert text[1..] == rest;
      assert data == data[..used] + data[used..];
    }
  }

  ghost predicate WellFormedUtf16(data: bytes) { exists text :: data == Utf16(text) }
  ghost predicate WellFormedUtf8(data: bytes) { exists text :: data == Utf8(text) }

  /** Decoding accepts exactly well-formed UTF-16LE, its result is well-formed
      UTF-8, and encoding the result restores the bytes. */
  lemma DecodeThenEncode(data: bytes)
    ensures DecodeUtf16Le(data).Ok? <==> WellFormedUtf16(data)
    ensures DecodeUtf16Le(data).Ok? ==>
              WellFormedUtf8(DecodeUtf16Le(data).value) && EncodeUtf16Le(DecodeUtf16Le(data).value) == Ok(data)
  {
    if DecodeUtf16Le(data).Ok? {
      var text := TextOfUnits(data);
      DecodeMeaning(text);
      EncodeMeaning(text);
    }
    if text :| data == Utf16(text) {
      DecodeMeaning(text);
    }
  }

  /** A string comes back from encoding and decoding exactly when it is
      well-formed UTF-8. */
  lemma EncodeThenDecode(text: bytes)
    ensures EncodeUtf16Le(text).Ok? && DecodeUtf16Le(EncodeUtf16Le(text).value) == Ok(text) <==> WellFormedUtf8(text)
  {
    if scalars :| text == Utf8(scalars) {
      EncodeMeaning(scalars);
      DecodeMeaning(scalars);
    }
    if EncodeUtf16Le(text).Ok? && DecodeUtf16Le(EncodeUtf16Le(text).value) == Ok(text) {
      DecodeThenEncode(EncodeUtf16Le(text).value);
    }
  }

  /** The encoder also accepts ill-formed text: the overlong form C0 80 of NUL
      becomes one UTF-16 unit and comes back as a single byte. */
  lemma OverlongIsAccepted()
    ensures EncodeUtf16Le([0xC0, 0x80]) == Ok([0, 0]) && DecodeUtf16Le([0, 0]) == Ok([0])
    ensures !WellFormedUtf8([0xC0, 0x80])
  {
    assert ReadUtf8([0xC0, 0x80]) == Ok((0, 2));
    assert [0xC0, 0x80][2..] == [] && CodeUnits(0) == Ok([0, 0]);
    assert EncodeUtf16Le([0xC0, 0x80]) == Append([0, 0], Ok([])) == Ok([0, 0] + []);
    assert [0, 0] + [] == [0, 0];
    assert ReadUtf16([0, 0]) == Ok((0, 2));
    assert [0, 0][2..] == [] && Utf8Of(0) == [0];
    assert DecodeUnits([0, 0]) == Append([0], Ok([])) == Ok([0] + []);
    assert [0] + [] == [0];
    EncodeThenDecode([0xC0, 0x80]);
  }

  // ------------------------------------ the byte-range grammar of UTF-8

  /** Length of the UTF8-char at the front of `t`, 0 if there is none
      (section 4 of RFC 3629). */
  function CharLength(t: bytes): (n: nat)
    ensures n <= |t|
  {
    if |t| >= 1 && t[0] <= 0x7F then 1
    else if |t| >= 2 && 0xC2 <= t[0] <= 0xDF && Continuation(t[1]) then 2
    else if |t| >= 3 && Continuation(t[2])
         && ((t[0] == 0xE0 && 0xA0 <= t[1] <= 0xBF) || (0xE1 <= t[0] <= 0xEC && Continuation(t[1]))
             || (t[0] == 0xED && 0x80 <= t[1] <= 0x9F) || (0xEE <= t[0] <= 0xEF && Continuation(t[1]))) then 3
    else if |t| >= 4 && Continuation(t[2]) && Continuation(t[3])
         && ((t[0] == 0xF0 && 0x90 <= t[1] <= 0xBF) || (0xF1 <= t[0] <= 0xF3 && Continuation(t[1]))
             || (t[0] == 0xF4 && 0x80 <= t[1] <= 0x8F)) then 4
    else 0
  }

  predicate Utf8Grammar(t: bytes)
    decreases |t|
  {
    t == [] || (CharLength(t) > 0 && Utf8Grammar(t[CharLength(t)..]))
  }

  lemma CharLengthOfScalar(c: scalar, rest: bytes)
    ensures CharLength(Utf8Of(c) + rest) == |Utf8Of(c)|
  {
  }

  lemma ScalarOfThreeByteChar(t: bytes) returns (c: scalar)
    requires CharLength(t) == 3
    ensures t[..3] == Utf8Of(c)
  {
    var high := Shift6(t[0] - 0xE0, t[1]);
    var code := Shift6(high, t[2]);
    assert code / 0x40 == high && code % 0x40 == t[2] - 0x80;
    assert high / 0x40 == t[0] - 0xE0 && high % 0x40 == t[1] - 0x80;
    c := code;
  }

  lemma ScalarOfFourByteChar(t: bytes) returns (c: scalar)
    requires CharLength(t) == 4
    ensures t[..4] == Utf8Of(c)
  {
    var high := Shift6(t[0] - 0xF0, t[1]);
    var middle := Shift6(high, t[2]);
    var code := Shift6(middle, t[3]);
    assert code / 0x40 == middle && code % 0x40 == t[3] - 0x80;
    assert middle / 0x40 == high && middle % 0x40 == t[2] - 0x80;
    assert high / 0x40 == t[0] - 0xF0 && high % 0x40 == t[1] - 0x80;
    c := code;
  }

  lemma ScalarOfChar(t: bytes) returns (c: scalar)
    requires CharLength(t) > 0
    ensures t[..CharLength(t)] == Utf8Of(c)
  {
    if CharLength(t) == 1 { c := t[0]; }
    else if CharLength(t) == 2 { c := Shift6(t[0] - 0xC0, t[1]); }
    else if CharLength(t) == 3 { c := ScalarOfThreeByteChar(t); }
    else { c := ScalarOfFourByteChar(t); }
  }

  /** The encodings of texts are exactly the strings of the RFC 3629 grammar. */
  lemma {:induction false} GrammarIffWellFormed(t: bytes)
    ensures Utf8Grammar(t) <==> WellFormedUtf8(t)
    decreases |t|
  {
    if t == [] {
      assert t == Utf8([]);
    } else {
      if Utf8Grammar(t) {
        var c := ScalarOfChar(t);
        GrammarIffWellFormed(t[CharLength(t)..]);
        var rest :| t[CharLength(t)..] == Utf8(rest);
        assert ([c] + rest)[1..] == rest;
        assert t == Utf8([c] + rest);
      }
      if text :| t == Utf8(text) {
        CharLengthOfScalar(text[0], Utf8(text[1..]));
        assert t[|Utf8Of(text[0])|..] == Utf8(text[1..]);
        GrammarIffWellFormed(t[CharLength(t)..]);
      }
    }
  }

  // ------------------------------------------------- values of the encodings

  /** The reference encodings by their values (section 3 of RFC 3629, section 2.1 of
      RFC 2781); with the byte ranges of the grammar these determine them. */
  lemma ScalarValues(c: scalar)
    ensures var r := Utf8Of(c);
            c == match |r|
                 case 1 => r[0] as nat
                 case 2 => 0x40 * (r[0] as int - 0xC0) + (r[1] as int - 0x80)
                 case 3 => 0x1000 * (r[0] as int - 0xE0) + 0x40 * (r[1] as int - 0x80) + (r[2] as int - 0x80)
                 case _ => 0x4_0000 * (r[0] as int - 0xF0) + 0x1000 * (r[1] as int - 0x80)
                           + 0x40 * (r[2] as int - 0x80) + (r[3] as int - 0x80)
    ensures var r := Utf16Of(c);
            var unit := r[0] as nat + 0x100 * r[1] as nat;
            if |r| == 2 then c == unit
            else
              var next := r[2] as nat + 0x100 * r[3] as nat;
              && 0xD800 <= unit <= 0xDBFF && 0xDC00 <= next <= 0xDFFF
              && c == 0x1_0000 + 0x400 * (unit - 0xD800) + (next - 0xDC00)
  {
    var q1 := c / 0x40;
    var q2 := q1 / 0x40;
    assert c == 0x40 * q1 + c % 0x40 && q1 == 0x40 * q2 + q1 % 0x40;
    assert q2 == 0x40 * (q2 / 0x40) + q2 % 0x40;
  }

  /** What the encoder takes for a character: a lead byte and its continuation bytes,
      of whatever value. */
  lemma EncoderReads(t: bytes)
    requires t != []
    ensures ReadUtf8(t).Ok? <==>
            || t[0] < 0x80
            || (0xC0 <= t[0] < 0xE0 && |t| > 1 && 0x80 <= t[1] < 0xC0)
            || (0xE0 <= t[0] < 0xF0 && |t| > 2 && 0x80 <= t[1] < 0xC0 && 0x80 <= t[2] < 0xC0)
            || (0xF0 <= t[0] < 0xF8 && |t| > 3 && 0x80 <= t[1] < 0xC0 && 0x80 <= t[2] < 0xC0 && 0x80 <= t[3] < 0xC0)
    ensures ReadUtf8(t).Ok? ==>
      var (c, used) := ReadUtf8(t).value;
      match used
      case 1 => c == t[0] as nat
      case 2 => c == 0x40 * (t[0] as int - 0xC0) + (t[1] as int - 0x80)
      case 3 => c == 0x1000 * (t[0] as int - 0xE0) + 0x40 * (t[1] as int - 0x80) + (t[2] as int - 0x80)
      case _ => c == 0x4_0000 * (t[0] as int - 0xF0) + 0x1000 * (t[1] as int - 0x80) + 0x40 * (t[2] as int - 0x80)
                     + (t[3] as int - 0x80)
  {
    forall b: byte | Continuation(b) ensures b % 0x40 == b - 0x80 { }
  }
}
