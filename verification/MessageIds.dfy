/** Accounting of SMB2 message ids over whole runs of a session (sections 3.2.4.1.3
    and 3.2.4.1.5 of MS-SMB2): a request with CreditCharge c uses the ids
    [MessageId, MessageId + c). */
module MessageIds {

  /** A request relative to the id its operation starts at. */
  datatype Send = Send(offset: nat, charge: nat)

  datatype Window = Window(id: nat, charge: nat)

  /** What one operation leaves: the requests it sent, and how far it moved the
      session's next id. */
  datatype Footprint = Footprint(sends: seq<Send>, reserved: nat)

  // ------------------------------------------------------------------ charges

  const CREDIT_UNIT: nat := 65536

  /** CreditCharge field of a READ or WRITE of `size` bytes; the field has 16 bits. */
  function PayloadCharge(size: nat): nat {
    if size == 0 then 1 else (1 + (size - 1) / CREDIT_UNIT) % 0x1_0000
  }

  /** Data of the longest WRITE that fits in a Direct TCP frame; for more the frame
      encoder throws, and nothing is sent. */
  const MAX_DATA: nat := 0xFF_FFFF - 112

  /** Ids the session sets aside for a chunk of `size` bytes. */
  function CreditCharge(size: nat): nat {
    if size == 0 then 1 else 1 + (size - 1) / CREDIT_UNIT
  }

  /** Field and reservation agree exactly while the charge fits in 16 bits. */
  lemma ChargesAgree(size: nat)
    requires size < 0x1_0000_0000
    ensures PayloadCharge(size) == CreditCharge(size) <==> size <= 65535 * CREDIT_UNIT
    ensures PayloadCharge(size) <= CreditCharge(size)
    ensures PayloadCharge(size) <= 1 <==> size <= CREDIT_UNIT || size > 65535 * CREDIT_UNIT
  {
  }

  /** The charge is the number of 64 KiB units begun, at least one (section 3.1.5.2 of
      MS-SMB2); the field keeps its low 16 bits. */
  lemma ChargeCounts(size: nat)
    ensures var c := CreditCharge(size);
            c >= 1 && size <= 65536 * c && (c == 1 || 65536 * (c - 1) < size)
    ensures size > 0 ==> PayloadCharge(size) == CreditCharge(size) % 65536
    ensures size == 0 ==> PayloadCharge(size) == 1
    ensures MAX_DATA == 16777103
  {
  }

  // --------------------------------------------------------------------- runs

  function Shifted(start: nat, sends: seq<Send>): (ws: seq<Window>)
    ensures |ws| == |sends|
  {
    seq(|sends|, i requires 0 <= i < |sends| => Window(start + sends[i].offset, sends[i].charge))
  }

  function Reserved(run: seq<Footprint>): nat {
    if run == [] then 0 else Reserved(run[..|run| - 1]) + run[|run| - 1].reserved
  }

  /** Windows of all requests of a run that starts at id `start`. */
  function Layout(run: seq<Footprint>, start: nat): seq<Window> {
    if run == [] then []
    else
      var before, last := run[..|run| - 1], run[|run| - 1];
      Layout(before, start) + Shifted(start + Reserved(before), last.sends)
  }

  lemma LayoutAppend(run: seq<Footprint>, f: Footprint, start: nat)
    ensures Layout(run + [f], start) == Layout(run, start) + Shifted(start + Reserved(run), f.sends)
    ensures Reserved(run + [f]) == Reserved(run) + f.reserved
  {
    assert (run + [f])[..|run|] == run;
  }

  /** Windows are pairwise disjoint and in increasing order. */
  predicate Increasing(ws: seq<Window>) {
    forall i, j | 0 <= i < j < |ws| :: ws[i].id + ws[i].charge <= ws[j].id
  }

  predicate Ordered(sends: seq<Send>) {
    forall i, j | 0 <= i < j < |sends| :: sends[i].offset + sends[i].charge <= sends[j].offset
  }

  /** The requests of the operation do not overlap and stay inside what it reserved. */
  predicate Tidy(f: Footprint) {
    Ordered(f.sends) && forall s | s in f.sends :: s.offset + s.charge <= f.reserved
  }

  /** Every window of `a` ends before any window of `b` begins. */
  predicate Precedes(a: seq<Window>, b: seq<Window>) {
    forall i, j | 0 <= i < |a| && 0 <= j < |b| :: a[i].id + a[i].charge <= b[j].id
  }

  predicate Within(ws: seq<Window>, lo: nat, hi: nat) {
    forall i | 0 <= i < |ws| :: lo <= ws[i].id && ws[i].id + ws[i].charge <= hi
  }

  lemma IncreasingConcat(a: seq<Window>, b: seq<Window>)
    ensures Increasing(a + b) <==> Increasing(a) && Increasing(b) && Precedes(a, b)
  {
    var c := a + b;
    if Increasing(c) {
      forall i, j | 0 <= i < j < |a| ensures a[i].id + a[i].charge <= a[j].id {
        assert c[i] == a[i] && c[j] == a[j];
      }
      forall i, j | 0 <= i < j < |b| ensures b[i].id + b[i].charge <= b[j].id {
        assert c[|a| + i] == b[i] && c[|a| + j] == b[j];
      }
      forall i, j | 0 <= i < |a| && 0 <= j < |b| ensures a[i].id + a[i].charge <= b[j].id {
        assert c[i] == a[i] && c[|a| + j] == b[j];
      }
    }
  }

  lemma WithinConcat(a: seq<Window>, b: seq<Window>, lo: nat, mid: nat, hi: nat)
    requires Within(a, lo, mid) && Within(b, mid, hi) && lo <= mid <= hi
    ensures Within(a + b, lo, hi) && Precedes(a, b)
  {
  }

  lemma ShiftedIncreasing(start: nat, sends: seq<Send>)
    ensures Increasing(Shifted(start, sends)) <==> Ordered(sends)
  {
    var ws := Shifted(start, sends);
    if Increasing(ws) {
      forall i, j | 0 <= i < j < |sends| ensures sends[i].offset + sends[i].charge <= sends[j].offset {
        assert ws[i].id + ws[i].charge <= ws[j].id;
      }
    }
  }

  lemma ShiftedWithin(start: nat, f: Footprint)
    requires Tidy(f)
    ensures Within(Shifted(start, f.sends), start, start + f.reserved)
  {
    forall i | 0 <= i < |f.sends| ensures f.sends[i].offset + f.sends[i].charge <= f.reserved {
      assert f.sends[i] in f.sends;
    }
  }

  /** If every operation is tidy, no two requests of the run share an id, and ids grow. */
  lemma {:induction false} TidyRun(run: seq<Footprint>, start: nat)
    requires forall f | f in run :: Tidy(f)
    ensures Increasing(Layout(run, start)) && Within(Layout(run, start), start, start + Reserved(run))
    decreases |run|
  {
    hide Increasing, Within, Precedes, Shifted, Tidy;
    if run == [] {
      NothingSent(start);
    } else {
      var before, last := run[..|run| - 1], run[|run| - 1];
      var base := start + Reserved(before);
      TidyRun(before, start);
      TidyIsOrdered(last);
      ShiftedIncreasing(base, last.sends);
      ShiftedWithin(base, last);
      WithinConcat(Layout(before, start), Shifted(base, last.sends), start, base, base + last.reserved);
      IncreasingConcat(Layout(before, start), Shifted(base, last.sends));
    }
  }

  lemma NothingSent(start: nat)
    ensures Increasing([]) && Within([], start, start)
  {
  }

  lemma TidyIsOrdered(f: Footprint)
    requires Tidy(f)
    ensures Ordered(f.sends)
  {
  }

  /** The operation sent something, from its first id on, and every request was charged. */
  predicate Active(f: Footprint) {
    f.sends != [] && f.sends[0].offset == 0 && forall s | s in f.sends :: s.charge >= 1
  }

  predicate AllOrdered(run: seq<Footprint>) {
    forall i | 0 <= i < |run| :: Ordered(run[i].sends)
  }

  predicate AllTidyButLast(run: seq<Footprint>) {
    forall i | 0 <= i < |run| - 1 :: Tidy(run[i])
  }

  /** In runs in which every operation sent a request the condition is local: no
      operation overlaps itself and all but the last stay inside what they reserved. */
  lemma {:induction false} RunIffTidy(run: seq<Footprint>, start: nat)
    requires forall f | f in run :: Active(f)
    ensures Increasing(Layout(run, start)) <==> AllOrdered(run) && AllTidyButLast(run)
    decreases |run|
  {
    hide Increasing, Precedes, Shifted, Tidy, Ordered, Active, Within;
    if run == [] {
      NothingSent(start);
    } else {
      var before, last := run[..|run| - 1], run[|run| - 1];
      var base := start + Reserved(before);
      RunIffTidy(before, start);
      ShiftedIncreasing(base, last.sends);
      IncreasingConcat(Layout(before, start), Shifted(base, last.sends));
      if Increasing(Layout(run, start)) && before != [] {
        PenultimateTidy(run, start);
      }
      if AllOrdered(run) && AllTidyButLast(run) {
        TidyRun(before, start);
        if before != [] {
          FollowsAll(Layout(before, start), last, start, base);
        } else {
          NothingPrecedes(Shifted(base, last.sends));
        }
      }
    }
  }

  /** Offset of operation `i` from the start of the run. */
  function At(run: seq<Footprint>, i: nat): nat
    requires i <= |run|
  {
    Reserved(run[..i])
  }

  /** All requests of the operation end at or before `limit`. */
  predicate EndsBy(f: Footprint, limit: int) {
    forall s | s in f.sends :: s.offset + s.charge <= limit
  }

  /** Every request of an operation ends before the first request of any later
      operation that sent one. */
  predicate Separated(run: seq<Footprint>) {
    forall i, j | 0 <= i < j < |run| :: SeparatedAt(run, i, j)
  }

  predicate SeparatedAt(run: seq<Footprint>, i: nat, j: nat)
    requires i < j < |run|
  {
    run[j].sends != [] ==> EndsBy(run[i], At(run, j) - At(run, i) + run[j].sends[0].offset)
  }

  /** For every run: the windows are disjoint and increasing exactly when no operation
      overlaps itself and none reaches into a later one. */
  lemma {:induction false} RunIncreasing(run: seq<Footprint>, start: nat)
    ensures Increasing(Layout(run, start)) <==> AllOrdered(run) && Separated(run)
    decreases |run|
  {
    hide Increasing, Precedes, Shifted, Ordered, SeparatedAt, PartPrecedes, At;
    if run == [] {
      NothingSent(start);
    } else {
      var n := |run| - 1;
      var before, last := run[..n], run[n];
      var ws := Shifted(start + Reserved(before), last.sends);
      RunIncreasing(before, start);
      ShiftedIncreasing(start + Reserved(before), last.sends);
      IncreasingConcat(Layout(before, start), ws);
      LayoutPrecedes(before, start, ws);
      forall i, j | 0 <= i < j < n ensures SeparatedAt(before, i, j) <==> SeparatedAt(run, i, j) {
        SeparatedBefore(run, i, j);
      }
      if Ordered(last.sends) {
        forall i | 0 <= i < n ensures PartPrecedes(before, start, i, ws) <==> SeparatedAt(run, i, n) {
          PartPrecedesLast(run, start, i);
        }
      }
      assert AllOrdered(run) <==> AllOrdered(before) && Ordered(last.sends);
    }
  }

  lemma SeparatedBefore(run: seq<Footprint>, i: nat, j: nat)
    requires i < j < |run| - 1
    ensures SeparatedAt(run[..|run| - 1], i, j) <==> SeparatedAt(run, i, j)
  {
    AtBefore(run, i);
    AtBefore(run, j);
  }

  lemma AtBefore(run: seq<Footprint>, i: nat)
    requires i < |run|
    ensures At(run[..|run| - 1], i) == At(run, i)
  {
    assert run[..|run| - 1][..i] == run[..i];
  }

  /** The windows of operation `i` precede others. */
  predicate PartPrecedes(run: seq<Footprint>, start: nat, i: nat, ws: seq<Window>)
    requires i < |run|
  {
    Precedes(Shifted(start + At(run, i), run[i].sends), ws)
  }

  lemma PartPrecedesLast(run: seq<Footprint>, start: nat, i: nat)
    requires i < |run| - 1 && Ordered(run[|run| - 1].sends)
    ensures var before, last := run[..|run| - 1], run[|run| - 1];
            PartPrecedes(before, start, i, Shifted(start + Reserved(before), last.sends))
            <==> SeparatedAt(run, i, |run| - 1)
  {
    hide Precedes, Shifted, EndsBy, Ordered, Reserved;
    AtBefore(run, i);
    var before, last := run[..|run| - 1], run[|run| - 1];
    PrecedesFirst(run[i], start + At(run, i), last, start + Reserved(before));
  }

  /** A run's windows precede others exactly when those of each operation do. */
  lemma {:induction false} LayoutPrecedes(run: seq<Footprint>, start: nat, ws: seq<Window>)
    ensures Precedes(Layout(run, start), ws) <==> forall i | 0 <= i < |run| :: PartPrecedes(run, start, i, ws)
    decreases |run|
  {
    hide Precedes, Shifted, PartPrecedes;
    if run == [] {
      NothingPrecedes(ws);
    } else {
      var n := |run| - 1;
      var before := run[..n];
      LayoutPrecedes(before, start, ws);
      BothPrecede(Layout(before, start), Shifted(start + Reserved(before), run[n].sends), ws);
      forall i | 0 <= i < n ensures PartPrecedes(before, start, i, ws) <==> PartPrecedes(run, start, i, ws) {
        AtBefore(run, i);
        PartPrecedesIs(run, start, i, ws);
        PartPrecedesIs(before, start, i, ws);
      }
      PartPrecedesIs(run, start, n, ws);
    }
  }

  lemma PartPrecedesIs(run: seq<Footprint>, start: nat, i: nat, ws: seq<Window>)
    requires i < |run|
    ensures PartPrecedes(run, start, i, ws) <==> Precedes(Shifted(start + At(run, i), run[i].sends), ws)
  {
  }

  lemma BothPrecede(a: seq<Window>, b: seq<Window>, ws: seq<Window>)
    ensures Precedes(a + b, ws) <==> Precedes(a, ws) && Precedes(b, ws)
  {
    if Precedes(a + b, ws) {
      PrecedesConcat(a, b, ws);
      forall i, j | 0 <= i < |a| && 0 <= j < |ws| ensures a[i].id + a[i].charge <= ws[j].id {
        assert (a + b)[i] == a[i];
      }
    }
  }

  /** Preceding an ordered operation is preceding its first request. */
  lemma PrecedesFirst(f: Footprint, at: nat, g: Footprint, base: nat)
    requires Ordered(g.sends)
    ensures Precedes(Shifted(at, f.sends), Shifted(base, g.sends)) <==>
            (g.sends != [] ==> EndsBy(f, base - at + g.sends[0].offset))
  {
    var ws, ns := Shifted(at, f.sends), Shifted(base, g.sends);
    if Precedes(ws, ns) && g.sends != [] {
      forall s | s in f.sends ensures s.offset + s.charge <= base - at + g.sends[0].offset {
        var i :| 0 <= i < |f.sends| && f.sends[i] == s;
        assert ws[i].id + ws[i].charge <= ns[0].id;
      }
    }
    if g.sends != [] && EndsBy(f, base - at + g.sends[0].offset) {
      forall i, j | 0 <= i < |ws| && 0 <= j < |ns| ensures ws[i].id + ws[i].charge <= ns[j].id {
        assert f.sends[i] in f.sends;
        assert j > 0 ==> g.sends[0].offset + g.sends[0].charge <= g.sends[j].offset;
      }
    }
  }

  lemma NothingPrecedes(ws: seq<Window>)
    ensures Precedes([], ws)
  {
  }

  lemma FollowsAll(ws: seq<Window>, f: Footprint, lo: nat, base: nat)
    requires Within(ws, lo, base)
    ensures Precedes(ws, Shifted(base, f.sends))
  {
  }

  lemma PrecededIsTidy(f: Footprint, next: Footprint, base: nat)
    requires Active(next) && Ordered(f.sends)
    requires Precedes(Shifted(base, f.sends), Shifted(base + f.reserved, next.sends))
    ensures Tidy(f)
  {
    var ws, ns := Shifted(base, f.sends), Shifted(base + f.reserved, next.sends);
    forall s | s in f.sends ensures s.offset + s.charge <= f.reserved {
      var i :| 0 <= i < |f.sends| && f.sends[i] == s;
      assert ws[i].id + ws[i].charge <= ns[0].id;
    }
  }

  lemma PrecedesConcat(a: seq<Window>, b: seq<Window>, c: seq<Window>)
    requires Precedes(a + b, c)
    ensures Precedes(b, c)
  {
    forall i, j | 0 <= i < |b| && 0 <= j < |c| ensures b[i].id + b[i].charge <= c[j].id {
      assert (a + b)[|a| + i] == b[i];
    }
  }

  lemma PenultimateTidy(run: seq<Footprint>, start: nat)
    requires |run| >= 2 && Active(run[|run| - 1]) && Increasing(Layout(run, start))
    ensures Tidy(run[|run| - 2])
  {
    hide Increasing, Precedes, Shifted, Tidy, Ordered, Active;
    var before, last := run[..|run| - 1], run[|run| - 1];
    var earlier, f := before[..|before| - 1], before[|before| - 1];
    var base := start + Reserved(earlier);
    var a, b, c := Layout(earlier, start), Shifted(base, f.sends), Shifted(base + f.reserved, last.sends);
    assert Layout(before, start) == a + b;
    IncreasingConcat(a + b, c);
    IncreasingConcat(a, b);
    ShiftedIncreasing(base, f.sends);
    PrecedesConcat(a, b, c);
    PrecededIsTidy(f, last, base);
  }

  // -------------------------------------------------- footprints of operations

  /** Requests with consecutive ids. */
  function Consecutive(charges: seq<nat>): (s: seq<Send>)
    ensures |s| == |charges|
  {
    seq(|charges|, i requires 0 <= i < |charges| => Send(i, charges[i]))
  }

  function Ones(n: nat): (s: seq<nat>)
    ensures |s| == n
  {
    seq(n, i => 1)
  }

  lemma ConsecutiveTidy(charges: seq<nat>, reserved: nat)
    ensures Tidy(Footprint(Consecutive(charges), reserved)) <==>
            && (forall i | 0 <= i < |charges| - 1 :: charges[i] <= 1)
            && (charges != [] ==> |charges| - 1 + charges[|charges| - 1] <= reserved)
  {
    var f := Footprint(Consecutive(charges), reserved);
    if Tidy(f) {
      forall i | 0 <= i < |charges| - 1 ensures charges[i] <= 1 {
        assert f.sends[i].offset + f.sends[i].charge <= f.sends[i + 1].offset;
      }
      if charges != [] { assert f.sends[|charges| - 1] in f.sends; }
    }
  }

  datatype Operation =
    | ListDirectory
    | ReadOnce(length: nat)
    | OpenForRead
    | ReadChunk(length: nat)
    | CloseHandle
    | WriteOnce(size: nat)
    | StatObject
    | Metadata       // set basic info, EAs or security; query EAs or security
    | CreateDirectory
    | MutateObject(quiet: bool)   // delete, rename, hard link; quiet for symbolic links
    | Watch
    | ListShares(bindSize: nat, requestSize: nat)
    | GetReferrals
    | CopyServerSide

  /** Operations with a WRITE that no frame can hold: they end in an exception if they
      get that far. */
  predicate Oversized(op: Operation) {
    match op
    case WriteOnce(size) => size > MAX_DATA
    case ListShares(bindSize, requestSize) => bindSize > MAX_DATA || requestSize > MAX_DATA
    case _ => false
  }

  /** A prefix of requests at consecutive ids. */
  predicate SentPrefix(f: Footprint, charges: seq<nat>) {
    exists k | 0 <= k <= |charges| :: f.sends == Consecutive(charges[..k])
  }

  /** What an operation has sent and what it reports when it is cancelled. */
  datatype Stop = Stop(sent: nat, reported: nat)

  /** A stat, by the poll of the token that says cancelled: its own polls report
      nothing at all, those of its exchangers count the request in hand. */
  const STAT_STOPS: seq<Stop> := [
    Stop(0, 0),                          // before anything
    Stop(1, 0),                          // after the open
    Stop(1, 2), Stop(2, 2), Stop(2, 0),  // around the first query and after it
    Stop(2, 3), Stop(3, 3), Stop(3, 0),  // around the second query and after it
    Stop(3, 4), Stop(4, 4)]              // around the close

  const METADATA_STOPS: seq<Stop> := [
    Stop(0, 0), Stop(1, 0), Stop(1, 2), Stop(2, 2), Stop(2, 3), Stop(3, 3)]

  /** `n` requests of one credit on success, the requests sent on an uncancelled
      failure, and what `stops` says when poll number `stop` says cancelled. */
  predicate Reported(f: Footprint, n: nat, stops: seq<Stop>, ok: bool, stop: nat) {
    && f.sends == Consecutive(Ones(|f.sends|))
    && if ok then stop == 0 && |f.sends| == f.reserved == n
       else if stop == 0 then 1 <= |f.sends| == f.reserved <= n
       else stop <= |stops| && stops[stop - 1] == Stop(|f.sends|, f.reserved)
  }

  /** What an operation can leave behind, by outcome. `stop` is the number of the
      poll, within the operation, that said cancelled; zero if none did. */
  predicate Possible(op: Operation, ok: bool, stop: nat, f: Footprint) {
    (ok ==> stop == 0) &&
    match op
    case ListDirectory =>
      && f.sends == Consecutive(Ones(|f.sends|)) && f.reserved == (if ok then |f.sends| else 3)
      && (ok ==> |f.sends| >= 3) && (stop == 0 ==> |f.sends| >= 1)
    case ReadOnce(length) =>
      SentPrefix(f, [1, PayloadCharge(length), 1]) && f.reserved == 3 && (ok ==> |f.sends| == 3)
    case OpenForRead => SentPrefix(f, [1]) && f.reserved == 1
    case ReadChunk(length) => SentPrefix(f, [PayloadCharge(length)]) && f.reserved == CreditCharge(length)
    case CloseHandle => SentPrefix(f, [1]) && f.reserved == 1
    case WriteOnce(size) =>
      if size == 0 then SentPrefix(f, [1, 1]) && f.reserved == (if ok then 2 else 3)
      else if size > MAX_DATA then
        !ok && if f.reserved == 0 then stop == 0 && f.sends == [Send(0, 1)] else SentPrefix(f, [1]) && f.reserved == 3
      else SentPrefix(f, [1, PayloadCharge(size), 1]) && f.reserved == 3 && (ok ==> |f.sends| == 3)
    case StatObject => Reported(f, 4, STAT_STOPS, ok, stop)
    case Metadata => Reported(f, 3, METADATA_STOPS, ok, stop)
    case CreateDirectory => SentPrefix(f, Ones(2)) && f.reserved == 2
    case MutateObject(_) => SentPrefix(f, Ones(3)) && f.reserved == 3
    case Watch => SentPrefix(f, Ones(3)) && f.reserved == 3
    case ListShares(bindSize, requestSize) => PipeEnds(f, bindSize, requestSize, ok, stop)
    case GetReferrals => SentPrefix(f, [1]) && f.reserved == |f.sends|
    case CopyServerSide => f.sends == Consecutive(Ones(|f.sends|)) && f.reserved == |f.sends|
  }

  /** How often an operation asks the token, against the number of requests it sends, when
      the last answer is that it is `cancelled` and when it is not. */
  predicate Asked(op: Operation, ok: bool, cancelled: bool, polls: nat, sent: nat) {
    match op
    case OpenForRead => polls == 0 && sent == 1
    case GetReferrals => polls == 1 && sent == if cancelled then 0 else 1
    case MutateObject(true) =>  // the middle request goes out without polls
      if cancelled then 1 <= polls <= 4 && sent == polls - 1
      else if ok then polls == 4 && sent == 3 else 1 <= sent <= 3 && sent <= polls <= sent + 1
    case StatObject => ok ==> polls == 10 && sent == 4
    case Metadata => ok ==> polls == 6 && sent == 3
    case ListDirectory =>  // no poll before a page, but one after
      if cancelled then sent < polls <= sent + 2
      else if ok then polls == sent + 2 else 1 <= sent <= polls <= sent + 2
    case ListShares(_, _) => ok ==> polls == 11 && sent == 6
    case CopyServerSide =>  // polls before the opens and before each chunk
      if cancelled then sent == (if polls == 1 then 0 else if polls == 2 then 2 else polls + 2)
      else if ok then (polls == 2 && sent == 4) || (polls > 2 && sent == polls + 3)
      else (polls == 1 && sent == 1) || (polls == 2 && (sent == 3 || sent == 5)) || (polls > 2 && sent == polls + 3)
    case WriteOnce(size) =>
      if cancelled then sent == polls / 2
      else if ok then polls == 2 * sent
      else 1 <= sent && 2 * sent - 1 <= polls <= 2 * sent + if size > MAX_DATA then 1 else 0
    case _ =>  // a poll before each request and one after
      if cancelled then sent == polls / 2
      else if ok then polls == 2 * sent else 1 <= sent && 2 * sent - 1 <= polls <= 2 * sent
  }

  /** Open, write, read, write, read, close. */
  function PipeCharges(bindSize: nat, requestSize: nat): (charges: seq<nat>)
    ensures |charges| == 6
  {
    [1, PayloadCharge(bindSize), 1, PayloadCharge(requestSize), 1, 1]
  }

  /** Request `n` of the plan came to nothing, being sent or, if the poll before it
      says cancelled, not; its id is used up, and the pipe is closed under the next. */
  predicate ClosedEarly(f: Footprint, plan: seq<Send>, n: nat, stop: nat)
    requires |plan| == 6
  {
    && 1 <= n <= 4 && f.reserved == n + 2 && (stop == 0 || stop == 2 * n || stop == 2 * n + 1)
    && f.sends == plan[..n] + (if stop == 2 * n then [] else [plan[n]]) + [Send(n + 1, 1)]
  }

  /** An exception in place of a write to the pipe: the open pipe and the ids of its
      requests are forgotten. */
  predicate PipeThrew(f: Footprint, plan: seq<Send>, bindSize: nat, requestSize: nat)
    requires |plan| == 6
  {
    f.reserved == 0
    && ((f.sends == plan[..1] && bindSize > MAX_DATA) || (f.sends == plan[..3] && requestSize > MAX_DATA))
  }

  /** How a share enumeration can end. */
  predicate PipeEnds(f: Footprint, bindSize: nat, requestSize: nat, ok: bool, stop: nat) {
    var plan := Consecutive(PipeCharges(bindSize, requestSize));
    if ok then stop == 0 && f == Footprint(plan, 6) && bindSize <= MAX_DATA && requestSize <= MAX_DATA
    else
      || (stop == 1 && f == Footprint([], 0))
      || (stop == 0 && f == Footprint(plan[..1], 1))
      || (exists n | 1 <= n <= 4 :: ClosedEarly(f, plan, n, stop))
      || (stop == 10 && f == Footprint(plan[..5], 6))
      || ((stop == 0 || stop == 11) && f == Footprint(plan, 6))
      || (stop == 0 && PipeThrew(f, plan, bindSize, requestSize))
  }

  /** Hypotheses under which the operation cannot overlap what follows: one-shot
      transfers of one credit, listings that fail after at most three requests, no
      exception, and no cancellation at the polls after which nothing is reported. */
  predicate Gentle(op: Operation, ok: bool, stop: nat, f: Footprint) {
    match op
    case ListDirectory => ok || |f.sends| <= 3
    case ReadOnce(length) => PayloadCharge(length) <= 1
    case WriteOnce(size) => size <= CREDIT_UNIT || (size > MAX_DATA && f.reserved > 0)
    case StatObject => stop !in {2, 5, 8}
    case Metadata => stop != 2
    case ListShares(bindSize, requestSize) => bindSize <= CREDIT_UNIT && requestSize <= CREDIT_UNIT
    case _ => true
  }

  lemma PrefixTidy(f: Footprint, charges: seq<nat>)
    requires SentPrefix(f, charges) && |f.sends| <= f.reserved && forall c | c in charges :: c <= 1
    ensures Tidy(f)
  {
    var k :| 0 <= k <= |charges| && f.sends == Consecutive(charges[..k]);
    ConsecutiveTidy(charges[..k], f.reserved);
    forall i | 0 <= i < k ensures charges[..k][i] <= 1 { assert charges[i] in charges; }
    assert f == Footprint(f.sends, f.reserved);
  }

  lemma ReportedTidy(f: Footprint, n: nat, stops: seq<Stop>, ok: bool, stop: nat)
    requires Reported(f, n, stops, ok, stop)
    ensures Tidy(f) <==> |f.sends| <= f.reserved
  {
    ConsecutiveTidy(Ones(|f.sends|), f.reserved);
    assert f == Footprint(f.sends, f.reserved);
  }

  lemma GentleIsTidy(op: Operation, ok: bool, stop: nat, f: Footprint)
    requires Possible(op, ok, stop, f) && Gentle(op, ok, stop, f)
    requires op.ReadChunk? ==> op.length < 0x1_0000_0000
    ensures Tidy(f)
  {
    hide PayloadCharge, CreditCharge;
    assert f == Footprint(f.sends, f.reserved);
    match op
    case ListDirectory => ConsecutiveTidy(Ones(|f.sends|), f.reserved);
    case CopyServerSide => ConsecutiveTidy(Ones(|f.sends|), f.reserved);
    case ReadOnce(length) => PrefixTidy(f, [1, PayloadCharge(length), 1]);
    case OpenForRead => PrefixTidy(f, [1]);
    case ReadChunk(length) =>
      ChargesAgree(length);
      var k :| 0 <= k <= 1 && f.sends == Consecutive([PayloadCharge(length)][..k]);
      ConsecutiveTidy([PayloadCharge(length)][..k], f.reserved);
    case CloseHandle => PrefixTidy(f, [1]);
    case WriteOnce(size) =>
      SmallCharge(size);
      if size == 0 { PrefixTidy(f, [1, 1]); }
      else if size > MAX_DATA { PrefixTidy(f, [1]); }
      else { PrefixTidy(f, [1, PayloadCharge(size), 1]); }
    case StatObject => ReportedTidy(f, 4, STAT_STOPS, ok, stop);
    case Metadata => ReportedTidy(f, 3, METADATA_STOPS, ok, stop);
    case CreateDirectory => PrefixTidy(f, Ones(2));
    case MutateObject(_) => PrefixTidy(f, Ones(3));
    case Watch => PrefixTidy(f, Ones(3));
    case GetReferrals => PrefixTidy(f, [1]);
    case ListShares(bindSize, requestSize) => SingleCreditsTidy(f, bindSize, requestSize, ok, stop);
  }

  lemma SmallCharge(size: nat)
    ensures size <= CREDIT_UNIT ==> PayloadCharge(size) == 1
    ensures size <= MAX_DATA ==> (PayloadCharge(size) <= 1 <==> size <= CREDIT_UNIT)
  {
  }

  lemma SingleCreditsTidy(f: Footprint, bindSize: nat, requestSize: nat, ok: bool, stop: nat)
    requires PipeEnds(f, bindSize, requestSize, ok, stop)
    requires bindSize <= CREDIT_UNIT && requestSize <= CREDIT_UNIT
    ensures Tidy(f)
  {
    hide PayloadCharge, PipeCharges, ClosedEarly, Tidy;
    SmallCharge(bindSize);
    SmallCharge(requestSize);
    var plan := Consecutive(PipeCharges(bindSize, requestSize));
    assert PipeCharges(bindSize, requestSize) == Ones(6) by { AllOnes(bindSize, requestSize); }
    if n :| 1 <= n <= 4 && ClosedEarly(f, plan, n, stop) {
      EarlyTidy(f, n, stop);
    } else {
      StraightTidy(f, plan);
    }
  }

  lemma AllOnes(bindSize: nat, requestSize: nat)
    requires PayloadCharge(bindSize) == 1 && PayloadCharge(requestSize) == 1
    ensures PipeCharges(bindSize, requestSize) == Ones(6)
  {
  }

  lemma StraightTidy(f: Footprint, plan: seq<Send>)
    requires plan == Consecutive(Ones(6)) && f.sends <= plan && |f.sends| <= f.reserved
    ensures Tidy(f)
  {
    assert forall i | 0 <= i < |f.sends| :: f.sends[i] == plan[i] == Send(i, 1);
  }

  lemma EarlyTidy(f: Footprint, n: nat, stop: nat)
    requires ClosedEarly(f, Consecutive(Ones(6)), n, stop)
    ensures Tidy(f)
  {
    var plan := Consecutive(Ones(6));
    assert forall i | 0 <= i < 6 :: plan[i] == Send(i, 1);
    forall i | 0 <= i < |f.sends|
      ensures f.sends[i].charge == 1 && i <= f.sends[i].offset < f.reserved
      ensures i < |f.sends| - 1 ==> f.sends[i] == plan[i]
    {
    }
  }

  /** Unless it threw, an enumeration reports its requests, and one more exactly when
      the poll before a request to the open pipe says cancelled. */
  lemma SharesReport(f: Footprint, bindSize: nat, requestSize: nat, ok: bool, stop: nat)
    requires Possible(ListShares(bindSize, requestSize), ok, stop, f) && (f.sends == [] || f.reserved > 0)
    ensures f.reserved == |f.sends| + if stop > 0 && stop % 2 == 0 then 1 else 0
  {
    hide PayloadCharge;
  }

  // --------------------------------------- the hypotheses are exact

  /** A listing that fails after n requests is tidy exactly for n <= 3. */
  lemma FailedListing(stop: nat, f: Footprint)
    requires Possible(ListDirectory, false, stop, f)
    ensures Tidy(f) <==> |f.sends| <= 3
  {
    ConsecutiveTidy(Ones(|f.sends|), f.reserved);
    assert f == Footprint(f.sends, f.reserved);
  }

  /** A completed one-shot read is tidy exactly when its READ is charged at most one
      credit: up to 65536 bytes, or so many that the 16-bit field wraps to zero. */
  lemma CompletedRead(length: nat, f: Footprint)
    requires length < 0x1_0000_0000 && Possible(ReadOnce(length), true, 0, f)
    ensures Tidy(f) <==> length <= CREDIT_UNIT || length > 65535 * CREDIT_UNIT
  {
    hide PayloadCharge;
    ChargesAgree(length);
    CompletedTransfer(length, f);
  }

  /** A completed one-shot write, at most as long as a frame allows, is tidy exactly
      up to 65536 bytes. */
  lemma CompletedWrite(size: nat, f: Footprint)
    requires Possible(WriteOnce(size), true, 0, f)
    ensures size <= MAX_DATA && (Tidy(f) <==> size <= CREDIT_UNIT)
  {
    hide PayloadCharge;
    SmallCharge(size);
    if size == 0 { PrefixTidy(f, [1, 1]); } else if size <= MAX_DATA { CompletedTransfer(size, f); }
  }

  /** A longer one never completes, and is tidy exactly unless it threw: then its open
      has been sent and no id is taken. */
  lemma OversizedWrite(size: nat, ok: bool, stop: nat, f: Footprint)
    requires Possible(WriteOnce(size), ok, stop, f) && size > MAX_DATA
    ensures !ok && (Tidy(f) <==> f.reserved > 0) && (f.reserved == 0 ==> f.sends == [Send(0, 1)])
  {
    if f.reserved > 0 { PrefixTidy(f, [1]); } else { assert f.sends[0] in f.sends; }
  }

  lemma CompletedTransfer(length: nat, f: Footprint)
    requires SentPrefix(f, [1, PayloadCharge(length), 1]) && f.reserved == |f.sends| == 3
    ensures Tidy(f) <==> PayloadCharge(length) <= 1
  {
    hide PayloadCharge;
    var charges := [1, PayloadCharge(length), 1];
    var k :| 0 <= k <= 3 && f.sends == Consecutive(charges[..k]);
    assert k == 3 && charges[..3] == charges && charges[1] == PayloadCharge(length);
    ConsecutiveTidy(charges, 3);
    assert f == Footprint(f.sends, f.reserved);
  }

  /** A completed share enumeration is tidy exactly when both its writes carry at most
      65536 bytes. */
  lemma CompletedShares(bindSize: nat, requestSize: nat, f: Footprint)
    requires Possible(ListShares(bindSize, requestSize), true, 0, f)
    ensures Tidy(f) <==> bindSize <= CREDIT_UNIT && requestSize <= CREDIT_UNIT
  {
    hide PayloadCharge;
    SmallCharge(bindSize);
    SmallCharge(requestSize);
    var charges := PipeCharges(bindSize, requestSize);
    assert charges[1] == PayloadCharge(bindSize) && charges[3] == PayloadCharge(requestSize);
    ConsecutiveTidy(charges, 6);
  }

  /** A stat stays inside what it reports exactly unless one of its own three polls
      after a request says cancelled; a metadata operation has one such poll. */
  lemma StoppedReports(ok: bool, stop: nat, f: Footprint)
    ensures Possible(StatObject, ok, stop, f) ==> (Tidy(f) <==> stop !in {2, 5, 8})
    ensures Possible(Metadata, ok, stop, f) ==> (Tidy(f) <==> stop != 2)
  {
    if Possible(StatObject, ok, stop, f) { ReportedTidy(f, 4, STAT_STOPS, ok, stop); }
    if Possible(Metadata, ok, stop, f) { ReportedTidy(f, 3, METADATA_STOPS, ok, stop); }
  }

  // ------------------------------------------------ overlaps and near misses

  /** An operation that leaves its range is met by the next request sent, unless
      ids that were reserved and never used lie between. */
  lemma OverrunOverlaps(n: nat, reserved: nat, start: nat)
    requires reserved < n
    ensures !Increasing(Layout([Footprint(Consecutive(Ones(n)), reserved), Footprint(Consecutive([1]), 1)], start))
  {
    var first, next := Footprint(Consecutive(Ones(n)), reserved), Footprint(Consecutive([1]), 1);
    var run := [first, next];
    RunIncreasing(run, start);
    assert run[..1] == [first] && run[..0] == [];
    assert [first][..0] == [];
    assert At(run, 1) == reserved && At(run, 0) == 0;
    assert first.sends[n - 1] in first.sends;
    assert !SeparatedAt(run, 0, 1);
  }

  /** Such a run without overlap: a listing that fails after four requests, a
      one-shot read cancelled before its first, and then any request. */
  lemma UnusedIdsHideOverrun(start: nat)
    ensures var failed := Footprint(Consecutive(Ones(4)), 3);
            var unused := Footprint([], 3);
            && Possible(ListDirectory, false, 0, failed) && !Tidy(failed)
            && Possible(ReadOnce(1), false, 1, unused)
            && Increasing(Layout([failed, unused, Footprint(Consecutive([1]), 1)], start))
  {
    var failed, unused, next := Footprint(Consecutive(Ones(4)), 3), Footprint([], 3), Footprint(Consecutive([1]), 1);
    var run := [failed, unused, next];
    FailedListing(0, failed);
    assert Consecutive([1, PayloadCharge(1), 1][..0]) == [];
    RunIncreasing(run, start);
    assert run[..2] == [failed, unused] && [failed, unused][..1] == [failed] && [failed][..0] == [] && run[..0] == [];
    assert run[..1] == [failed];
    forall i | 0 <= i < 3 ensures Ordered(run[i].sends) {
    }
    forall i, j | 0 <= i < j < 3 ensures SeparatedAt(run, i, j) {
    }
  }
}
