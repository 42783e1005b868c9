/** FILE_FULL_EA_INFORMATION chains (section 2.4.15 of MS-FSCC). */
module EaChain {
  import opened Bytes
  import opened Framing

  datatype Ea = Ea(name: bytes, value: bytes, needEa: bool)

  const NEED_EA: byte := 0x80

  predicate Encodable(e: Ea) { 1 <= |e.name| <= 255 && |e.value| <= 65535 }

  // ---------------------------------------------------------------- building

  function EntrySize(e: Ea): nat { 9 + |e.name| + |e.value| }

  function AlignUp4(n: nat): (r: nat)
    ensures r % 4 == 0 && n <= r < n + 4
  {
    n + (4 - n % 4) % 4
  }

  function EntryBytes(e: Ea, next: nat): (r: bytes)
    requires Encodable(e)
    ensures |r| == EntrySize(e)
  {
    hide Le;
    Le(next, 4) + [if e.needEa then NEED_EA else 0, |e.name|] + Le(|e.value|, 2) + e.name + [0] + e.value
  }

  predicate AllEncodable(es: seq<Ea>) { forall e | e in es :: Encodable(e) }

  /** All entries, linked by their aligned sizes; the last one is not padded. */
  function Chain(es: seq<Ea>): bytes
    requires AllEncodable(es)
  {
    if es == [] then []
    else if |es| == 1 then EntryBytes(es[0], 0)
    else
      var size := EntrySize(es[0]);
      EntryBytes(es[0], AlignUp4(size)) + Zeros(AlignUp4(size) - size) + Chain(es[1..])
  }

  /** buildFileFullEaInformation; an entry that cannot be encoded is thrown out. */
  function Build(es: seq<Ea>): Result<bytes> {
    if AllEncodable(es) then Ok(Chain(es)) else Err(InvalidArgument)
  }

  lemma ChainStep(es: seq<Ea>, index: nat)
    requires AllEncodable(es) && index < |es|
    ensures Encodable(es[index])
    ensures var size := EntrySize(es[index]);
            Chain(es[index..]) == if index + 1 == |es| then EntryBytes(es[index], 0)
              else EntryBytes(es[index], AlignUp4(size)) + Zeros(AlignUp4(size) - size) + Chain(es[index + 1..])
  {
    assert es[index..][1..] == es[index + 1..];
  }

  /** Appends one entry at the end of `out`, zero-padded to `aligned` bytes. */
  method AppendEntry(out: bytes, e: Ea, next: nat, aligned: nat) returns (longer: bytes)
    requires Encodable(e) && EntrySize(e) <= aligned
    ensures longer == out + (EntryBytes(e, next) + Zeros(aligned - EntrySize(e)))
  {
    hide EntryBytes;
    longer := out + EntryBytes(e, next);
    ghost var unpadded := longer;
    while |longer| - |out| < aligned
      invariant EntrySize(e) <= |longer| - |out| <= aligned
      invariant longer == unpadded + Zeros(|longer| - |unpadded|)
    {
      longer := longer + [0];
    }
  }

  method BuildBytes(es: seq<Ea>) returns (r: Result<bytes>)
    ensures r == Build(es)
  {
    hide EntryBytes, Chain, AlignUp4;
    var out: bytes := [];
    var index := 0;
    assert es[0..] == es;
    while index < |es|
      invariant 0 <= index <= |es|
      invariant forall k | 0 <= k < index :: Encodable(es[k])
      invariant AllEncodable(es) ==> out + Chain(es[index..]) == Chain(es)
    {
      var entry := es[index];
      if |entry.name| == 0 || |entry.name| > 255 || |entry.value| > 65535 {
        assert entry in es;
        return Err(InvalidArgument);
      }
      var size := EntrySize(entry);
      var last := index + 1 == |es|;
      var aligned := if last then size else AlignUp4(size);
      ghost var before := out;
      out := AppendEntry(out, entry, if last then 0 else aligned, aligned);
      if AllEncodable(es) {
        ChainStep(es, index);
        ghost var piece := EntryBytes(entry, if last then 0 else aligned) + Zeros(aligned - size);
        ChainEnd();
        assert es[index + 1..] == [] <==> last;
        assert Chain(es[index..]) == piece + Chain(es[index + 1..]);
        assert before + (piece + Chain(es[index + 1..])) == out + Chain(es[index + 1..]);
      }
      index := index + 1;
    }
    assert es[index..] == [] && AllEncodable(es);
    ChainEnd();
    assert out + [] == out;
    r := Ok(out);
  }

  lemma ChainEnd()
    ensures Chain([]) == []
  {
  }

  // ---------------------------------------------------------------- decoding

  function Prepend<T>(first: T, rest: Result<seq<T>>): Result<seq<T>> {
    match rest
    case Err(e) => Err(e)
    case Ok(more) => Ok([first] + more)
  }

  function PrependAll<T>(first: seq<T>, rest: Result<seq<T>>): Result<seq<T>> {
    match rest
    case Err(e) => Err(e)
    case Ok(more) => Ok(first + more)
  }

  function EntryAt(b: bytes, at: nat): (r: Result<Ea>)
    requires at < |b|
    ensures r.Ok? ==> |b| - at >= 9
  {
    if |b| - at < 8 then Err(IoError)
    else
      var nameEnd := at + 8 + b[at + 5];
      var entryEnd := nameEnd + 1 + ReadU16(b, at + 6);
      if entryEnd > |b| then Err(IoError)
      else if b[nameEnd] != 0 then Err(ProtocolUnsupported)
      else Ok(Ea(b[at + 8..nameEnd], b[nameEnd + 1..entryEnd], b[at + 4] >= NEED_EA))
  }

  function DecodeFrom(b: bytes, at: nat): Result<seq<Ea>>
    decreases |b| - at
  {
    if at >= |b| then Ok([])
    else match EntryAt(b, at)
      case Err(e) => Err(e)
      case Ok(entry) =>
        var next := ReadU32(b, at);
        if next == 0 then Ok([entry])
        else if next < 8 || at + next > |b| then Err(IoError)
        else Prepend(entry, DecodeFrom(b, at + next))
  }

  method DecodeBytes(b: bytes) returns (r: Result<seq<Ea>>)
    ensures r == DecodeFrom(b, 0)
  {
    hide EntryAt, ReadU32;
    var entries: seq<Ea> := [];
    var at := 0;
    assert PrependAll([], DecodeFrom(b, 0)) == DecodeFrom(b, 0) by { PrependNothing(DecodeFrom(b, 0)); }
    while at < |b|
      invariant 0 <= at <= |b|
      invariant DecodeFrom(b, 0) == PrependAll(entries, DecodeFrom(b, at))
      decreases |b| - at
    {
      var entry := EntryAt(b, at);
      if entry.Err? { return Err(entry.code); }
      var next := ReadU32(b, at);
      ghost var before := entries;
      entries := entries + [entry.value];
      if next == 0 { return Ok(entries); }
      if next < 8 || at + next > |b| { return Err(IoError); }
      PrependMore(before, entry.value, DecodeFrom(b, at + next));
      at := at + next;
    }
    assert entries + [] == entries;
    r := Ok(entries);
  }

  lemma PrependNothing<T>(r: Result<seq<T>>)
    ensures PrependAll([], r) == r
  {
    if r.Ok? { assert [] + r.value == r.value; }
  }

  lemma PrependMore<T>(s: seq<T>, x: T, r: Result<seq<T>>)
    ensures PrependAll(s, Prepend(x, r)) == PrependAll(s + [x], r)
  {
    if r.Ok? { assert s + ([x] + r.value) == s + [x] + r.value; }
  }

  // ------------------------------------------------------------- properties

  lemma EntrySlices(p0: bytes, flag: byte, p1: bytes, name: bytes, value: bytes, rest: bytes)
    requires |p0| == 4 && |p1| == 2 && |name| < 256
    ensures var b := p0 + [flag, |name|] + p1 + name + [0] + value + rest;
            && b[0..4] == p0 && b[4] == flag && b[5] == |name| && b[6..8] == p1
            && b[8..8 + |name|] == name && b[8 + |name|] == 0
            && b[9 + |name|..9 + |name| + |value|] == value
  {
  }

  /** An entry in place decodes to itself and its link reads back. */
  lemma EntryReadsBack(b: bytes, at: nat, e: Ea, next: u32, rest: bytes)
    requires at <= |b| && Encodable(e) && b[at..] == EntryBytes(e, next) + rest
    ensures at < |b| && EntryAt(b, at) == Ok(e) && ReadU32(b, at) == next
  {
    hide Le, FromLe;
    Pow256Values();
    var flag: byte := if e.needEa then NEED_EA else 0;
    EntrySlices(Le(next, 4), flag, Le(|e.value|, 2), e.name, e.value, rest);
    var t := b[at..];
    assert t[0..4] == b[at..at + 4] && t[6..8] == b[at + 6..at + 8];
    assert t[4] == b[at + 4] && t[5] == b[at + 5] && t[8 + |e.name|] == b[at + 8 + |e.name|];
    assert t[8..8 + |e.name|] == b[at + 8..at + 8 + |e.name|];
    assert t[9 + |e.name|..9 + |e.name| + |e.value|] == b[at + 9 + |e.name|..at + 9 + |e.name| + |e.value|];
    LeRoundTrip(next, 4);
    LeRoundTrip(|e.value|, 2);
  }

  lemma {:induction false} ChainDecodes(b: bytes, at: nat, es: seq<Ea>)
    requires AllEncodable(es) && at <= |b| && b[at..] == Chain(es)
    ensures DecodeFrom(b, at) == Ok(es)
    decreases |es|
  {
    hide EntryAt, ReadU32, EntryBytes, AlignUp4;
    if es != [] {
      var e, size := es[0], EntrySize(es[0]);
      if |es| == 1 {
        assert b[at..] == EntryBytes(e, 0) + [];
        EntryReadsBack(b, at, e, 0, []);
        assert es == [e];
      } else {
        var aligned := AlignUp4(size);
        var tail := Chain(es[1..]);
        assert b[at..] == EntryBytes(e, aligned) + (Zeros(aligned - size) + tail);
        EntryReadsBack(b, at, e, aligned, Zeros(aligned - size) + tail);
        assert b[at + aligned..] == b[at..][aligned..] == tail;
        ChainDecodes(b, at + aligned, es[1..]);
        assert [e] + es[1..] == es;
      }
    }
  }

  /** Every list that can be built decodes to itself; lists are refused exactly
      for a name or value of an impossible length. */
  lemma EaRoundTrip(es: seq<Ea>)
    ensures Build(es).Ok? <==> forall e | e in es :: 1 <= |e.name| <= 255 && |e.value| <= 65535
    ensures Build(es).Ok? ==> DecodeFrom(Build(es).value, 0) == Ok(es)
  {
    if AllEncodable(es) {
      assert Chain(es)[0..] == Chain(es);
      ChainDecodes(Chain(es), 0, es);
    }
  }

  /** Offset of entry `k` in the chain. */
  function EntryStart(es: seq<Ea>, k: nat): (at: nat)
    requires k < |es|
    ensures at % 4 == 0
  {
    if k == 0 then 0 else AlignUp4(EntrySize(es[0])) + EntryStart(es[1..], k - 1)
  }

  /** Every entry starts on a four-byte boundary. */
  lemma {:induction false} EntriesAligned(es: seq<Ea>, k: nat)
    requires AllEncodable(es) && k < |es|
    ensures EntryStart(es, k) % 4 == 0 && EntryStart(es, k) <= |Chain(es)|
    ensures Chain(es)[EntryStart(es, k)..] == Chain(es[k..])
    decreases k
  {
    hide EntryBytes, AlignUp4;
    if k == 0 {
      assert es[0..] == es;
    } else {
      EntriesAligned(es[1..], k - 1);
      var size := EntrySize(es[0]);
      var first := EntryBytes(es[0], AlignUp4(size)) + Zeros(AlignUp4(size) - size);
      assert Chain(es) == first + Chain(es[1..]);
      assert Chain(es)[EntryStart(es, k)..] == Chain(es[1..])[EntryStart(es[1..], k - 1)..];
      assert es[1..][k - 1..] == es[k..];
    }
  }

  /** Whatever the input, the decoder advances by eight bytes or more per entry. */
  lemma {:induction false} DecodedEntriesBounded(b: bytes, at: nat)
    requires at <= |b| && DecodeFrom(b, at).Ok?
    ensures 8 * |DecodeFrom(b, at).value| <= |b| - at
    decreases |b| - at
  {
    if at < |b| && ReadU32(b, at) != 0 {
      DecodedEntriesBounded(b, at + ReadU32(b, at));
    }
  }

  // ------------------------------------------------- the layout byte by byte

  /** An entry (section 2.4.15 of MS-FSCC): link, flags, name length, value length, name,
      a zero byte, value. */
  lemma EntryLayout(e: Ea, next: u32)
    requires Encodable(e)
    ensures var b := EntryBytes(e, next);
            && |b| == 9 + |e.name| + |e.value| && b[0..4] == Le(next, 4)
            && b[4] == (if e.needEa then 0x80 else 0) && b[5] == |e.name| && b[6..8] == Le(|e.value|, 2)
            && b[8..8 + |e.name|] == e.name && b[8 + |e.name|] == 0 && b[9 + |e.name|..] == e.value
  {
    hide Le;
    EntrySlices(Le(next, 4), if e.needEa then NEED_EA else 0, Le(|e.value|, 2), e.name, e.value, []);
    assert EntryBytes(e, next) + [] == EntryBytes(e, next);
  }

  /** Exactly which bytes the decoder takes for an entry, and what it reads from them. */
  lemma EntryAccepted(b: bytes, at: nat)
    requires at < |b|
    ensures EntryAt(b, at).Ok? <==>
            && at + 8 <= |b|
            && at + 9 + b[at + 5] + (b[at + 6] as nat + 0x100 * b[at + 7] as nat) <= |b| && b[at + 8 + b[at + 5]] == 0
    ensures EntryAt(b, at).Ok? ==>
      var e, nameLength, valueLength := EntryAt(b, at).value, b[at + 5], b[at + 6] as nat + 0x100 * b[at + 7] as nat;
      && e.name == b[at + 8..at + 8 + nameLength] && (e.needEa <==> b[at + 4] >= 0x80)
      && e.value == b[at + 9 + nameLength..at + 9 + nameLength + valueLength]
  {
    ReadBytes(b, at + 6);
  }

  /** Links are multiples of four, and what lies between an entry and the next is zero. */
  lemma ChainLayout(es: seq<Ea>)
    requires AllEncodable(es) && |es| >= 2
    ensures var b := Chain(es);
            var size := 9 + |es[0].name| + |es[0].value|;
            var link := size + (4 - size % 4) % 4;
            && link <= |b| && b[0..4] == Le(link, 4) && b[link..] == Chain(es[1..])
            && forall i | size <= i < link :: b[i] == 0
  {
    hide Le, EntryBytes;
    var size := EntrySize(es[0]);
    var first, rest := EntryBytes(es[0], AlignUp4(size)), Chain(es[1..]);
    EntryStarts(es[0], AlignUp4(size));
    var b := first + Zeros(AlignUp4(size) - size) + rest;
    assert Chain(es) == b && b[0..4] == first[0..4];
    forall i | size <= i < AlignUp4(size) ensures b[i] == 0 {
      assert b[i] == Zeros(AlignUp4(size) - size)[i - size];
    }
  }

  lemma EntryStarts(e: Ea, next: nat)
    requires Encodable(e)
    ensures EntryBytes(e, next)[0..4] == Le(next, 4)
  {
    hide Le;
    EntrySlices(Le(next, 4), if e.needEa then NEED_EA else 0, Le(|e.value|, 2), e.name, e.value, []);
    assert EntryBytes(e, next) + [] == EntryBytes(e, next);
  }
}
