/** What the requests of a server-side copy add up to. */
module ServerCopy {
  import opened Bytes

  /** One copy-chunk request, with the bytes the server validly reported as copied;
      zero when the chunk failed or its count was refused. */
  datatype Attempt = Attempt(offset: nat, length: nat, copied: nat)

  const CHUNK_SIZE: nat := 1024 * 1024

  function Copied(attempts: seq<Attempt>): nat {
    if attempts == [] then 0 else Copied(attempts[..|attempts| - 1]) + attempts[|attempts| - 1].copied
  }

  lemma CopiedAppend(attempts: seq<Attempt>, a: Attempt)
    ensures Copied(attempts + [a]) == Copied(attempts) + a.copied
  {
    assert (attempts + [a])[..|attempts|] == attempts;
  }

  function Min(a: nat, b: nat): nat { if a <= b then a else b }

  predicate GoodAttempt(a: Attempt, offset: nat, size: nat) {
    && a.offset == offset < size && a.length == Min(CHUNK_SIZE, size - offset)
    && a.copied <= a.length
  }

  /** Chunks start where the last copied byte ended and only the last may fail. */
  predicate Tiles(attempts: seq<Attempt>, size: nat)
    decreases |attempts|
  {
    attempts == [] ||
    (var before, last := attempts[..|attempts| - 1], attempts[|attempts| - 1];
     && Tiles(before, size) && (forall a | a in before :: a.copied > 0)
     && GoodAttempt(last, Copied(before), size))
  }

  lemma TilesAppend(attempts: seq<Attempt>, a: Attempt, size: nat)
    requires Tiles(attempts, size) && (forall x | x in attempts :: x.copied > 0)
    requires GoodAttempt(a, Copied(attempts), size)
    ensures Tiles(attempts + [a], size)
  {
    assert (attempts + [a])[..|attempts|] == attempts;
  }

  lemma {:induction false} TilesBound(attempts: seq<Attempt>, size: nat)
    requires Tiles(attempts, size)
    ensures Copied(attempts) <= size
    ensures (forall a | a in attempts :: a.copied > 0) ==> |attempts| <= Copied(attempts)
    ensures |attempts| <= size
    decreases |attempts|
  {
    if attempts != [] {
      var before := attempts[..|attempts| - 1];
      TilesBound(before, size);
      assert attempts == before + [attempts[|attempts| - 1]];
    }
  }

  /** Offsets reported to the progress callback. */
  function Progress(attempts: seq<Attempt>): seq<nat> {
    if attempts == [] then []
    else
      var before, last := attempts[..|attempts| - 1], attempts[|attempts| - 1];
      Progress(before) + if last.copied > 0 then [Copied(attempts)] else []
  }

  lemma ProgressAppend(attempts: seq<Attempt>, a: Attempt)
    ensures Progress(attempts + [a]) ==
            Progress(attempts) + if a.copied > 0 then [Copied(attempts) + a.copied] else []
  {
    hide Copied;
    CopiedAppend(attempts, a);
    var more := attempts + [a];
    assert more[..|more| - 1] == attempts && more[|more| - 1] == a;
  }

  /** Progress strictly increases, never passes the size, and reaches what was copied. */
  lemma {:induction false} ProgressIncreases(attempts: seq<Attempt>, size: nat)
    requires Tiles(attempts, size)
    ensures var p := Progress(attempts);
            && (forall i, j | 0 <= i < j < |p| :: p[i] < p[j])
            && (forall i | 0 <= i < |p| :: 0 < p[i] <= Copied(attempts))
            && (Copied(attempts) > 0 ==> p != [] && p[|p| - 1] == Copied(attempts))
    decreases |attempts|
  {
    hide Copied, Progress;
    NoProgress();
    if attempts != [] {
      var before, last := attempts[..|attempts| - 1], attempts[|attempts| - 1];
      ProgressIncreases(before, size);
      assert attempts == before + [last];
      CopiedAppend(before, last);
      ProgressAppend(before, last);
    }
  }

  lemma NoProgress()
    ensures Copied([]) == 0 && Progress([]) == []
  {
  }

  // ----------------------------------------------------------- file contents

  /** `target` with `data` written at `offset`. */
  function Splice(target: bytes, offset: nat, data: bytes): bytes
    requires offset <= |target|
  {
    target[..offset] + data + if offset + |data| <= |target| then target[offset + |data|..] else []
  }

  /** Contents of the target after a server has carried out the attempts as reported. */
  function Apply(attempts: seq<Attempt>, source: bytes, target: bytes): (r: bytes)
    requires exists size: nat :: size <= |source| && Tiles(attempts, size)
    ensures |r| >= Copied(attempts) && r[..Copied(attempts)] == source[..Copied(attempts)]
    decreases |attempts|
  {
    if attempts == [] then target
    else
      var before, last := attempts[..|attempts| - 1], attempts[|attempts| - 1];
      assert exists size: nat :: size <= |source| && Tiles(before, size) && GoodAttempt(last, Copied(before), size);
      var sofar := Apply(before, source, target);
      var r := Splice(sofar, last.offset, source[last.offset..last.offset + last.copied]);
      r
  }

  /** A complete tiling makes the first `size` bytes of the target those of the
      source, whatever the target held; a target emptied first becomes exactly them. */
  lemma CompleteCopy(attempts: seq<Attempt>, size: nat, source: bytes, target: bytes)
    requires Tiles(attempts, size) && size <= |source| && Copied(attempts) == size
    ensures Apply(attempts, source, target)[..size] == source[..size]
    ensures target == [] ==> Apply(attempts, source, target) == source[..size]
  {
    if target == [] { ApplyLength(attempts, size, source); }
  }

  lemma {:induction false} ApplyLength(attempts: seq<Attempt>, size: nat, source: bytes)
    requires Tiles(attempts, size) && size <= |source|
    ensures |Apply(attempts, source, [])| == Copied(attempts)
    decreases |attempts|
  {
    if attempts != [] {
      ApplyLength(attempts[..|attempts| - 1], size, source);
    }
  }

  /** Every chunk starts at the sum of what was copied before it and asks for 1 MiB, or
      for the rest of the file if that is less; all but the last copied something. */
  lemma {:induction false} ChunkBounds(attempts: seq<Attempt>, size: nat, i: nat)
    requires Tiles(attempts, size) && i < |attempts|
    ensures var a := attempts[i];
            && a.offset == Copied(attempts[..i]) < size && a.copied <= a.length <= 1048576
            && a.offset + a.length <= size && (a.length == 1048576 || a.offset + a.length == size)
            && (i < |attempts| - 1 ==> a.copied > 0)
    decreases |attempts|
  {
    var before := attempts[..|attempts| - 1];
    if i < |before| {
      ChunkBounds(before, size, i);
      assert before[..i] == attempts[..i] && before[i] in before;
    }
  }
}
