/** Bounded breadth-first search over remote directories. */
module Search {
  import opened Bytes
  import opened Framing

  const SLASH: u16 := 0x2F
  const BACKSLASH: u16 := 0x5C

  datatype Kind = File | Directory | Symlink | Unknown

  datatype Entry = Entry(name: Text, remotePath: Text, kind: Kind)

  datatype Options = Options(connectionId: Text, startPath: Text, query: Text,
                             maxDepth: int, maxResults: int, includeDirectories: bool)

  datatype Found = Found(entries: seq<Entry>, scannedDirectories: nat, limitReached: bool)

  datatype PendingDirectory = PendingDirectory(path: Text, depth: nat)

  /** The directory service as a stable function of the path, and the library's
      case-insensitive substring test. */
  datatype World = World(list: Text -> Result<seq<Entry>>, contains: (Text, Text) -> bool)

  // ---------------------------------------------------------- normalised paths

  /** White space as Unicode classifies code units of the basic plane. */
  predicate IsSpace(c: u16) {
    || 0x09 <= c <= 0x0D || c == 0x20 || c == 0x85 || c == 0xA0 || c == 0x1680
    || 0x2000 <= c <= 0x200A || c == 0x2028 || c == 0x2029 || c == 0x202F || c == 0x205F || c == 0x3000
  }

  function TrimLeft(s: Text): Text {
    if s != [] && IsSpace(s[0]) then TrimLeft(s[1..]) else s
  }

  function TrimRight(s: Text): (r: Text)
    ensures |r| <= |s|
  {
    if s != [] && IsSpace(s[|s| - 1]) then TrimRight(s[..|s| - 1]) else s
  }

  function Trimmed(s: Text): Text { TrimRight(TrimLeft(s)) }

  function ForwardSlashes(s: Text): (r: Text)
    ensures |r| == |s|
  {
    seq(|s|, i requires 0 <= i < |s| => if s[i] == BACKSLASH then SLASH else s[i])
  }

  function ChopSlashes(s: Text): (r: Text)
    ensures r <= s && (s != [] ==> r != [])
    ensures |r| > 1 ==> r[|r| - 1] != SLASH
    ensures s != [] && s[|s| - 1] != SLASH ==> r == s
  {
    if |s| > 1 && s[|s| - 1] == SLASH then ChopSlashes(s[..|s| - 1]) else s
  }

  function Rooted(s: Text): Text {
    if s != [] && s[0] == SLASH then s else [SLASH] + s
  }

  /** normalizeRemotePath */
  function Normalized(path: Text): (r: Text)
    ensures r != [] && r[0] == SLASH && BACKSLASH !in r
    ensures |r| > 1 ==> r[|r| - 1] != SLASH
  {
    var plain := ForwardSlashes(Trimmed(path));
    if plain == [] then [SLASH] else ChopSlashes(Rooted(plain))
  }

  method NormalizeRemotePath(path: Text) returns (r: Text)
    ensures r == Normalized(path)
  {
    r := ForwardSlashes(Trimmed(path));
    if r == [] { return [SLASH]; }
    if r[0] != SLASH { r := [SLASH] + r; }
    while |r| > 1 && r[|r| - 1] == SLASH
      invariant r != [] && ChopSlashes(r) == Normalized(path)
    {
      r := r[..|r| - 1];
    }
  }

  /** The path without trailing slashes of either kind. */
  function WithoutEnd(s: Text): Text {
    if s != [] && (s[|s| - 1] == SLASH || s[|s| - 1] == BACKSLASH) then WithoutEnd(s[..|s| - 1]) else s
  }

  /** Chopping trailing slashes can uncover white space that a second pass would trim:
      a second normalisation changes nothing exactly when the trimmed path, without
      its trailing slashes, is empty or does not end in white space. */
  lemma NormalizedTwice(path: Text)
    ensures var rest := WithoutEnd(Trimmed(path));
            Normalized(Normalized(path)) == Normalized(path) <==> rest == [] || !IsSpace(rest[|rest| - 1])
  {
    hide Trimmed, WithoutEnd, Normalized, IsSpace;
    NormalizedAgain(path);
    NormalizedEnd(path);
  }

  /** The last character of a normalised path is that of the path without its end. */
  lemma NormalizedEnd(path: Text)
    ensures var once, rest := Normalized(path), WithoutEnd(Trimmed(path));
            once[|once| - 1] == if rest == [] then SLASH else rest[|rest| - 1]
    ensures !IsSpace(SLASH)
  {
    hide Trimmed, WithoutEnd, Normalized;
    ChoppedEnd(Trimmed(path));
    NormalizedIs(path);
  }

  lemma NormalizedIs(path: Text)
    ensures Normalized(path) == ChopSlashes(Rooted(ForwardSlashes(Trimmed(path))))
  {
    hide Trimmed;
  }

  lemma {:induction false} ChoppedEnd(t: Text)
    ensures var rest := WithoutEnd(t);
            var chopped := ChopSlashes(Rooted(ForwardSlashes(t)));
            chopped[|chopped| - 1] == if rest == [] then SLASH else rest[|rest| - 1]
    decreases |t|
  {
    hide ForwardSlashes;
    if t != [] {
      var last := t[|t| - 1];
      var plain := ForwardSlashes(t);
      ForwardSlashesLast(t);
      if last == SLASH || last == BACKSLASH {
        ChoppedEnd(t[..|t| - 1]);
        if |t| > 1 { assert Rooted(plain)[..|Rooted(plain)| - 1] == Rooted(plain[..|t| - 1]); }
      }
    }
  }

  lemma ForwardSlashesLast(t: Text)
    requires t != []
    ensures ForwardSlashes(t)[..|t| - 1] == ForwardSlashes(t[..|t| - 1])
    ensures ForwardSlashes(t)[|t| - 1] == if t[|t| - 1] == BACKSLASH then SLASH else t[|t| - 1]
    ensures |t| > 1 ==> ForwardSlashes(t)[0] == ForwardSlashes(t[..|t| - 1])[0]
  {
  }

  lemma NormalizedAgain(path: Text)
    ensures var once := Normalized(path);
            Normalized(once) == once <==> !IsSpace(once[|once| - 1])
  {
    var once := Normalized(path);
    hide Normalized, ChopSlashes, Trimmed, IsSpace;
    TrimmedRooted(once);
    NormalizedOf(once);
    if IsSpace(once[|once| - 1]) {
      assert Normalized(once) <= ForwardSlashes(Trimmed(once));
    } else {
      assert ForwardSlashes(once) == once;
    }
  }

  /** A path that starts with a slash loses only trailing white space. */
  lemma TrimmedRooted(s: Text)
    requires s != [] && s[0] == SLASH
    ensures var t := Trimmed(s);
            && t != [] && t[0] == SLASH && t <= s
            && (t == s <==> !IsSpace(s[|s| - 1]))
  {
    TrimRightKeeps(s);
  }

  lemma {:induction false} TrimRightKeeps(s: Text)
    requires s != [] && s[0] == SLASH
    ensures var t := TrimRight(s);
            && t != [] && t[0] == SLASH && t <= s
            && (t == s <==> !IsSpace(s[|s| - 1]))
  {
    if IsSpace(s[|s| - 1]) { TrimRightKeeps(s[..|s| - 1]); }
  }

  lemma NormalizedOf(s: Text)
    requires Trimmed(s) != [] && Trimmed(s)[0] == SLASH
    ensures Normalized(s) == ChopSlashes(ForwardSlashes(Trimmed(s)))
  {
    hide Trimmed, ChopSlashes;
  }

  lemma NormalizedTwiceCanDiffer()
    ensures var once := Normalized([0x61, 0x20, SLASH]);
            once == [SLASH, 0x61, 0x20] && Normalized(once) == [SLASH, 0x61]
  {
    assert Trimmed([0x61, 0x20, SLASH]) == [0x61, 0x20, SLASH];
    assert ForwardSlashes([0x61, 0x20, SLASH]) == [0x61, 0x20, SLASH];
    assert [SLASH] + [0x61, 0x20, SLASH] == [SLASH, 0x61, 0x20, SLASH];
    var once: Text := [SLASH, 0x61, 0x20];
    assert [SLASH, 0x61, 0x20, SLASH][..3] == once;
    assert TrimLeft(once) == once;
    assert once[..2] == [SLASH, 0x61] && TrimRight([SLASH, 0x61]) == [SLASH, 0x61];
    assert Trimmed(once) == [SLASH, 0x61];
    assert ForwardSlashes([SLASH, 0x61]) == [SLASH, 0x61];
  }

  // -------------------------------------------------- level order, declaratively

  predicate MatchesQuery(w: World, e: Entry, query: Text) {
    query == [] || w.contains(e.name, query) || w.contains(e.remotePath, query)
  }

  predicate Wanted(w: World, o: Options, e: Entry) {
    (o.includeDirectories || e.kind.File?) && MatchesQuery(w, e, Trimmed(o.query))
  }

  function Hits(w: World, o: Options, entries: seq<Entry>): seq<Entry> {
    if entries == [] then []
    else
      var last := entries[|entries| - 1];
      Hits(w, o, entries[..|entries| - 1]) + if Wanted(w, o, last) then [last] else []
  }

  function Subdirectories(entries: seq<Entry>, depth: nat): seq<PendingDirectory> {
    if entries == [] then []
    else
      var last := entries[|entries| - 1];
      Subdirectories(entries[..|entries| - 1], depth)
      + if last.kind.Directory? then [PendingDirectory(Normalized(last.remotePath), depth)] else []
  }

  /** Entries of a directory; none when it cannot be listed. */
  function Listing(w: World, path: Text): seq<Entry> {
    match w.list(path)
    case Ok(entries) => entries
    case Err(_) => []
  }

  function HitsIn(w: World, o: Options, directories: seq<PendingDirectory>): seq<Entry> {
    if directories == [] then []
    else
      HitsIn(w, o, directories[..|directories| - 1])
      + Hits(w, o, Listing(w, directories[|directories| - 1].path))
  }

  function ChildrenOf(w: World, directories: seq<PendingDirectory>): seq<PendingDirectory> {
    if directories == [] then []
    else
      var last := directories[|directories| - 1];
      ChildrenOf(w, directories[..|directories| - 1]) + Subdirectories(Listing(w, last.path), last.depth + 1)
  }

  /** The unrolling of the graph from `start`: the directories at distance `k`,
      once for every way of reaching them. */
  function Level(w: World, start: Text, k: nat): seq<PendingDirectory> {
    if k == 0 then [PendingDirectory(start, 0)] else ChildrenOf(w, Level(w, start, k - 1))
  }

  /** The first `n` levels in order. */
  function Levels(w: World, start: Text, n: nat): seq<PendingDirectory> {
    if n == 0 then [] else Levels(w, start, n - 1) + Level(w, start, n - 1)
  }

  function Directories(w: World, o: Options): seq<PendingDirectory>
    requires o.maxDepth >= 0
  {
    Levels(w, Normalized(o.startPath), o.maxDepth + 1)
  }

  // ------------------------------------------------------------------- lemmas

  lemma {:induction false} DepthOfChildren(w: World, directories: seq<PendingDirectory>, depth: nat)
    requires forall d | d in directories :: d.depth == depth
    ensures forall d | d in ChildrenOf(w, directories) :: d.depth == depth + 1
  {
    if directories != [] {
      var last := directories[|directories| - 1];
      DepthOfChildren(w, directories[..|directories| - 1], depth);
      DepthOfSubdirectories(Listing(w, last.path), depth + 1);
    }
  }

  lemma {:induction false} DepthOfSubdirectories(entries: seq<Entry>, depth: nat)
    ensures forall d | d in Subdirectories(entries, depth) :: d.depth == depth
  {
    if entries != [] { DepthOfSubdirectories(entries[..|entries| - 1], depth); }
  }

  lemma {:induction false} DepthOfLevel(w: World, start: Text, k: nat)
    ensures forall d | d in Level(w, start, k) :: d.depth == k
  {
    if k > 0 {
      DepthOfLevel(w, start, k - 1);
      DepthOfChildren(w, Level(w, start, k - 1), k - 1);
    }
  }

  lemma {:induction false} LevelsGrow(w: World, start: Text, m: nat, n: nat)
    requires m <= n
    ensures Levels(w, start, m) <= Levels(w, start, n)
    decreases n
  {
    hide Level;
    if m < n { LevelsGrow(w, start, m, n - 1); }
  }

  /** Once a level is empty, so are all later ones. */
  lemma {:induction false} EmptyLevels(w: World, start: Text, m: nat, n: nat)
    requires m <= n && Level(w, start, m) == []
    ensures Level(w, start, n) == [] && Levels(w, start, n) == Levels(w, start, m)
    decreases n
  {
    hide Level, Levels;
    if m < n {
      EmptyLevels(w, start, m, n - 1);
      LevelIsChildren(w, start, n - 1);
      LevelsStep(w, start, n - 1);
    }
  }

  lemma {:induction false} HitsGrow(w: World, o: Options, a: seq<PendingDirectory>, b: seq<PendingDirectory>)
    requires a <= b
    ensures HitsIn(w, o, a) <= HitsIn(w, o, b)
    decreases |b|
  {
    if |a| < |b| { HitsGrow(w, o, a, b[..|b| - 1]); } else { assert a == b; }
  }

  lemma {:induction false} HitsOfEntriesGrow(w: World, o: Options, entries: seq<Entry>, j: nat)
    requires j <= |entries|
    ensures Hits(w, o, entries[..j]) <= Hits(w, o, entries)
    decreases |entries|
  {
    if j < |entries| {
      HitsOfEntriesGrow(w, o, entries[..|entries| - 1], j);
      assert entries[..|entries| - 1][..j] == entries[..j];
    } else {
      assert entries[..j] == entries;
    }
  }

  /** Cycles do not matter: a directory whose only subdirectory is itself is
      scanned once for each depth allowed. */
  lemma {:induction false} SelfLoop(w: World, start: Text, e: Entry, n: nat)
    requires w.list(start) == Ok([e]) && e.kind.Directory? && Normalized(e.remotePath) == start
    ensures Level(w, start, n) == [PendingDirectory(start, n)] && |Levels(w, start, n)| == n
  {
    hide Normalized;
    if n > 0 {
      SelfLoop(w, start, e, n - 1);
      assert ChildrenOf(w, [PendingDirectory(start, n - 1)])
          == ChildrenOf(w, []) + Subdirectories([e], n);
    }
  }

  lemma Snoc<T>(s: seq<T>, j: nat)
    requires j < |s|
    ensures s[..j + 1] != [] && s[..j + 1][..j] == s[..j] && s[..j + 1][j] == s[j]
  {
  }

  // ---------------------------------------------------- what a search must return

  /** The first `scanned` directories of the unrolling could be listed. */
  ghost predicate AllListed(w: World, directories: seq<PendingDirectory>, scanned: nat)
    requires scanned <= |directories|
  {
    forall i | 0 <= i < scanned :: w.list(directories[i].path).Ok?
  }

  /** A finished search found the first hits of the unrolling, up to the limit,
      and stopped in the directory holding the last of them. */
  ghost predicate FoundInLevelOrder(w: World, o: Options, found: Found)
    requires o.maxDepth >= 0 && o.maxResults > 0
  {
    var directories := Directories(w, o);
    var all := HitsIn(w, o, directories);
    && found.scannedDirectories <= |directories| && AllListed(w, directories, found.scannedDirectories)
    && (found.limitReached <==> |all| >= o.maxResults)
    && found.entries == (if |all| >= o.maxResults then all[..o.maxResults] else all)
    && (!found.limitReached ==> found.scannedDirectories == |directories|)
    && (found.limitReached ==>
          found.scannedDirectories > 0
          && |HitsIn(w, o, directories[..found.scannedDirectories - 1])| < o.maxResults
             <= |HitsIn(w, o, directories[..found.scannedDirectories])|)
  }

  /** Directory `n` of the unrolling is the first that cannot be listed, and the
      limit was not reached before it. */
  ghost predicate FailsAt(w: World, o: Options, n: nat, code: ErrorCode)
    requires o.maxDepth >= 0
  {
    var directories := Directories(w, o);
    && n < |directories| && AllListed(w, directories, n) && w.list(directories[n].path) == Err(code)
    && |HitsIn(w, o, directories[..n])| < o.maxResults
  }

  predicate ValidOptions(o: Options) {
    Trimmed(o.connectionId) != [] && o.maxDepth >= 0 && o.maxResults > 0
  }

  ghost predicate CancelledSometime(cancelled: nat -> bool) { exists n :: cancelled(n) }

  /** Entries in a sequence of directories. */
  function EntryCount(w: World, directories: seq<PendingDirectory>): nat {
    if directories == [] then 0
    else EntryCount(w, directories[..|directories| - 1]) + |Listing(w, directories[|directories| - 1].path)|
  }

  lemma EntryCountStep(w: World, done: seq<PendingDirectory>, d: PendingDirectory, entries: seq<Entry>)
    requires w.list(d.path) == Ok(entries)
    ensures EntryCount(w, done + [d]) == EntryCount(w, done) + |entries| && EntryCount(w, []) == 0
  {
    assert (done + [d])[..|done|] == done;
  }

  /** How often the token is asked: before every directory and before every entry up to
      the one at which the search ends. */
  ghost predicate PolledThroughout(w: World, o: Options, r: Result<Found>, polls: nat)
    requires ValidOptions(o)
  {
    var directories := Directories(w, o);
    match r
    case Err(code) =>
      exists n: nat :: n < |directories| && FailsAt(w, o, n, code) && polls == n + 1 + EntryCount(w, directories[..n])
    case Ok(found) =>
      if !found.limitReached then polls == |directories| + EntryCount(w, directories)
      else
        && 0 < found.scannedDirectories <= |directories|
        && LimitReachedAt(w, o, found.scannedDirectories,
                          polls - found.scannedDirectories - EntryCount(w, directories[..found.scannedDirectories - 1]))
  }

  /** Entry number `j` of directory number `scanned` is the hit that reached the limit. */
  ghost predicate LimitReachedAt(w: World, o: Options, scanned: nat, j: int)
    requires o.maxDepth >= 0 && 0 < scanned <= |Directories(w, o)|
  {
    var directories := Directories(w, o);
    var entries := Listing(w, directories[scanned - 1].path);
    && 1 <= j <= |entries| && Wanted(w, o, entries[j - 1])
    && |HitsIn(w, o, directories[..scanned - 1])| + |Hits(w, o, entries[..j])| == o.maxResults
  }

  /** search; `cancelled` answers the successive polls of the cancellation token. Only
      the last poll may say cancelled, and then nothing else is done. */
  method Search(w: World, o: Options, cancelled: nat -> bool) returns (r: Result<Found>, polls: nat)
    ensures !ValidOptions(o) ==> r == Err(InvalidPath) && polls == 0
    ensures forall i | 0 <= i < polls - 1 :: !cancelled(i)
    ensures polls > 0 && cancelled(polls - 1) ==> r == Err(ErrorCode.Cancelled)
    ensures ValidOptions(o) && !(polls > 0 && cancelled(polls - 1)) ==> PolledThroughout(w, o, r, polls)
    ensures ValidOptions(o) && r.Ok? ==> FoundInLevelOrder(w, o, r.value)
    ensures ValidOptions(o) && !CancelledSometime(cancelled) && AllListed(w, Directories(w, o), |Directories(w, o)|) ==>
      r.Ok?
  {
    hide Level, Levels, HitsIn, ChildrenOf, Hits, Subdirectories, Normalized, Trimmed, Wanted, Directories,
      FoundInLevelOrder, Frontier, EntryCount, PolledThroughout, LimitReachedAt, Listing;
    polls := 0;
    if Trimmed(o.connectionId) == [] { return Err(InvalidPath), polls; }
    if o.maxDepth < 0 || o.maxResults <= 0 { return Err(InvalidPath), polls; }
    var start := NormalizeRemotePath(o.startPath);
    ghost var directories := Directories(w, o);
    var pending := [PendingDirectory(start, 0)];
    var entries: seq<Entry> := [];
    var scanned := 0;
    ghost var k: nat, i: nat := 0, 0;
    ghost var done: seq<PendingDirectory> := [];
    StartOfSearch(w, o);
    NoEntries(w);
    while pending != []
      invariant Frontier(w, o, done, pending, k, i)
      invariant scanned == |done| && done <= directories && AllListed(w, directories, scanned)
      invariant entries == HitsIn(w, o, done) && |entries| < o.maxResults
      invariant polls == scanned + EntryCount(w, done) && forall n | 0 <= n < polls :: !cancelled(n)
      decreases |directories| - scanned
    {
      polls := polls + 1;
      if cancelled(polls - 1) { return Err(ErrorCode.Cancelled), polls; }
      ghost var queue := pending;
      k, i := Dequeue(w, o, done, pending, k, i);
      var current := pending[0];
      pending := pending[1..];
      assert done == directories[..scanned] && current == directories[scanned];
      var listed := w.list(current.path);
      if listed.Err? {
        assert FailsAt(w, o, scanned, listed.code);
        PolledToFailure(w, o, scanned, listed.code, polls);
        return Err(listed.code), polls;
      }
      scanned := scanned + 1;
      assert AllListed(w, directories, scanned);
      ghost var rest, before := pending, entries;
      var j := 0;
      NothingYet(w, o, listed.value, k + 1);
      while j < |listed.value|
        invariant 0 <= j <= |listed.value|
        invariant entries == before + Hits(w, o, listed.value[..j]) && |entries| < o.maxResults
        invariant polls == scanned + EntryCount(w, done) + j && forall n | 0 <= n < polls :: !cancelled(n)
        invariant pending == rest + (if k < o.maxDepth then Subdirectories(listed.value[..j], k + 1) else [])
      {
        polls := polls + 1;
        if cancelled(polls - 1) { return Err(ErrorCode.Cancelled), polls; }
        var entry := listed.value[j];
        HitsStep(w, o, listed.value, j);
        SubdirectoriesStep(listed.value, j, k + 1);
        if Wanted(w, o, entry) {
          entries := entries + [entry];
          if |entries| >= o.maxResults {
            ListingIs(w, current.path, listed.value);
            LimitReached(w, o, scanned, j + 1, entries);
            PolledToLimit(w, o, scanned, j + 1, entries, polls);
            return Ok(Found(entries, scanned, true)), polls;
          }
        }
        if entry.kind.Directory? && current.depth < o.maxDepth {
          var path := NormalizeRemotePath(entry.remotePath);
          pending := pending + [PendingDirectory(path, current.depth + 1)];
        }
        j := j + 1;
      }
      assert listed.value[..j] == listed.value;
      DirectoryDone(w, o, done, queue, k, i, listed.value);
      EntryCountStep(w, done, current, listed.value);
      done, i := done + [current], i + 1;
    }
    QueueEmpty(w, o, done, k, i, entries);
    PolledToEnd(w, o, entries, done, polls);
    r := Ok(Found(entries, scanned, false));
  }

  lemma NoEntries(w: World)
    ensures EntryCount(w, []) == 0
  {
  }

  lemma ListingIs(w: World, path: Text, entries: seq<Entry>)
    requires w.list(path) == Ok(entries)
    ensures Listing(w, path) == entries
  {
  }

  lemma PolledToFailure(w: World, o: Options, n: nat, code: ErrorCode, polls: nat)
    requires ValidOptions(o) && FailsAt(w, o, n, code) && polls == n + 1 + EntryCount(w, Directories(w, o)[..n])
    ensures PolledThroughout(w, o, Err(code), polls)
  {
    hide Directories, EntryCount;
  }

  lemma PolledToLimit(w: World, o: Options, scanned: nat, j: nat, entries: seq<Entry>, polls: nat)
    requires ValidOptions(o) && 0 < scanned <= |Directories(w, o)|
    requires var listing := Listing(w, Directories(w, o)[scanned - 1].path);
             && 1 <= j <= |listing| && Wanted(w, o, listing[j - 1])
             && |HitsIn(w, o, Directories(w, o)[..scanned - 1])| + |Hits(w, o, listing[..j])| == o.maxResults
    requires polls == scanned + EntryCount(w, Directories(w, o)[..scanned - 1]) + j
    ensures PolledThroughout(w, o, Ok(Found(entries, scanned, true)), polls)
  {
    hide Directories, EntryCount, HitsIn, Hits, Wanted, Listing;
  }

  lemma PolledToEnd(w: World, o: Options, entries: seq<Entry>, done: seq<PendingDirectory>, polls: nat)
    requires ValidOptions(o) && FoundInLevelOrder(w, o, Found(entries, |done|, false)) && done <= Directories(w, o)
    requires polls == |done| + EntryCount(w, done)
    ensures PolledThroughout(w, o, Ok(Found(entries, |done|, false)), polls)
  {
    hide Directories, EntryCount, HitsIn, AllListed;
    assert done == Directories(w, o);
  }


  // ------------------------------------------------------ steps of the search

  ghost function NextLevel(w: World, o: Options, part: seq<PendingDirectory>, k: nat): seq<PendingDirectory> {
    if k < o.maxDepth then ChildrenOf(w, part) else []
  }

  /** The queue holds level `k` from `i` on, then what the first `i` directories
      of that level led to; all before has been scanned. */
  ghost predicate Frontier(w: World, o: Options, done: seq<PendingDirectory>, pending: seq<PendingDirectory>,
                           k: nat, i: nat) {
    var start := Normalized(o.startPath);
    && k <= o.maxDepth && i <= |Level(w, start, k)|
    && done == Levels(w, start, k) + Level(w, start, k)[..i]
    && pending == Level(w, start, k)[i..] + NextLevel(w, o, Level(w, start, k)[..i], k)
  }

  lemma StartOfSearch(w: World, o: Options)
    requires o.maxDepth >= 0
    ensures Frontier(w, o, [], [PendingDirectory(Normalized(o.startPath), 0)], 0, 0)
    ensures HitsIn(w, o, []) == []
  {
  }

  /** The head of the queue is the next directory of the unrolling. */
  lemma Dequeue(w: World, o: Options, done: seq<PendingDirectory>, pending: seq<PendingDirectory>, k0: nat, i0: nat)
      returns (k: nat, i: nat)
    requires Frontier(w, o, done, pending, k0, i0) && pending != []
    ensures Frontier(w, o, done, pending, k, i) && i < |Level(w, Normalized(o.startPath), k)|
    ensures pending[0] == Level(w, Normalized(o.startPath), k)[i] && pending[0].depth == k
    ensures done + [pending[0]] <= Directories(w, o)
  {
    hide Level, Levels, ChildrenOf, Normalized;
    var start := Normalized(o.startPath);
    k, i := k0, i0;
    if i == |Level(w, start, k)| {
      assert Level(w, start, k)[..i] == Level(w, start, k);
      NextLevelStarts(w, o, start, k);
      k, i := k + 1, 0;
    }
    DepthOfLevel(w, start, k);
    LevelsGrow(w, start, k + 1, o.maxDepth + 1);
    LevelsStep(w, start, k);
    assert done + [pending[0]] == Levels(w, start, k) + Level(w, start, k)[..i + 1];
  }

  lemma LevelsStep(w: World, start: Text, k: nat)
    ensures Levels(w, start, k + 1) == Levels(w, start, k) + Level(w, start, k)
  {
    hide Level;
  }

  lemma NextLevelStarts(w: World, o: Options, start: Text, k: nat)
    requires NextLevel(w, o, Level(w, start, k), k) != []
    ensures k < o.maxDepth && NextLevel(w, o, Level(w, start, k), k) == Level(w, start, k + 1)
    ensures Levels(w, start, k) + Level(w, start, k) == Levels(w, start, k + 1)
    ensures NextLevel(w, o, [], k + 1) == []
  {
  }

  lemma NothingYet(w: World, o: Options, entries: seq<Entry>, depth: nat)
    ensures Hits(w, o, entries[..0]) == [] && Subdirectories(entries[..0], depth) == []
  {
  }

  lemma HitsStep(w: World, o: Options, entries: seq<Entry>, j: nat)
    requires j < |entries|
    ensures Hits(w, o, entries[..j + 1])
         == Hits(w, o, entries[..j]) + if Wanted(w, o, entries[j]) then [entries[j]] else []
  {
    hide Wanted;
    Snoc(entries, j);
  }

  lemma SubdirectoriesStep(entries: seq<Entry>, j: nat, depth: nat)
    requires j < |entries|
    ensures Subdirectories(entries[..j + 1], depth)
         == Subdirectories(entries[..j], depth)
            + if entries[j].kind.Directory? then [PendingDirectory(Normalized(entries[j].remotePath), depth)] else []
  {
    hide Normalized;
    Snoc(entries, j);
  }

  /** A scanned directory moves to the scanned part, and its subdirectories to
      the end of the queue. */
  lemma DirectoryDone(w: World, o: Options, done: seq<PendingDirectory>, pending: seq<PendingDirectory>,
                      k: nat, i: nat, entries: seq<Entry>)
    requires Frontier(w, o, done, pending, k, i) && i < |Level(w, Normalized(o.startPath), k)|
    requires pending[0].depth == k && w.list(pending[0].path) == Ok(entries)
    ensures Frontier(w, o, done + [pending[0]],
                     pending[1..] + (if k < o.maxDepth then Subdirectories(entries, k + 1) else []), k, i + 1)
    ensures HitsIn(w, o, done + [pending[0]]) == HitsIn(w, o, done) + Hits(w, o, entries)
  {
    hide Level, Levels, Hits, Subdirectories, Normalized;
    var level := Level(w, Normalized(o.startPath), k);
    Snoc(level, i);
    assert (done + [pending[0]])[..|done|] == done;
    assert done + [pending[0]] == Levels(w, Normalized(o.startPath), k) + level[..i + 1];
    assert ChildrenOf(w, level[..i + 1]) == ChildrenOf(w, level[..i]) + Subdirectories(entries, k + 1);
  }

  lemma LimitReached(w: World, o: Options, scanned: nat, j: nat, entries: seq<Entry>)
    requires o.maxDepth >= 0 && o.maxResults > 0
    requires 0 < scanned <= |Directories(w, o)| && AllListed(w, Directories(w, o), scanned)
    requires j <= |Listing(w, Directories(w, o)[scanned - 1].path)|
    requires entries == HitsIn(w, o, Directories(w, o)[..scanned - 1])
                        + Hits(w, o, Listing(w, Directories(w, o)[scanned - 1].path)[..j])
    requires |HitsIn(w, o, Directories(w, o)[..scanned - 1])| < o.maxResults == |entries|
    ensures FoundInLevelOrder(w, o, Found(entries, scanned, true))
  {
    hide Directories, Listing, Hits;
    var directories := Directories(w, o);
    HitsOfEntriesGrow(w, o, Listing(w, directories[scanned - 1].path), j);
    Snoc(directories, scanned - 1);
    HitsGrow(w, o, directories[..scanned], directories);
    assert entries <= HitsIn(w, o, directories[..scanned]) <= HitsIn(w, o, directories);
  }

  lemma QueueEmpty(w: World, o: Options, done: seq<PendingDirectory>, k: nat, i: nat, entries: seq<Entry>)
    requires o.maxDepth >= 0 && o.maxResults > 0 && Frontier(w, o, done, [], k, i)
    requires done <= Directories(w, o) && AllListed(w, Directories(w, o), |done|)
    requires entries == HitsIn(w, o, done) && |entries| < o.maxResults
    ensures FoundInLevelOrder(w, o, Found(entries, |done|, false))
  {
    hide Normalized, HitsIn, AllListed, Level, Levels, ChildrenOf;
    AllLevelsDone(w, o, Normalized(o.startPath), k, i);
  }

  lemma AllLevelsDone(w: World, o: Options, start: Text, k: nat, i: nat)
    requires k <= o.maxDepth && i <= |Level(w, start, k)|
    requires Level(w, start, k)[i..] + NextLevel(w, o, Level(w, start, k)[..i], k) == []
    ensures Levels(w, start, k) + Level(w, start, k)[..i] == Levels(w, start, o.maxDepth + 1)
  {
    hide Level, Levels, ChildrenOf;
    assert Level(w, start, k)[..i] == Level(w, start, k);
    LevelsStep(w, start, k);
    if k < o.maxDepth {
      LevelIsChildren(w, start, k);
      EmptyLevels(w, start, k + 1, o.maxDepth + 1);
    }
  }

  lemma LevelIsChildren(w: World, start: Text, k: nat)
    ensures Level(w, start, k + 1) == ChildrenOf(w, Level(w, start, k))
  {
  }

  // ------------------------------------------ the same in terms of the entries

  /** What comes before and after the trimmed text is white space, and it neither starts
      nor ends with any. */
  lemma TrimmedIs(s: Text) returns (i: nat, j: nat)
    ensures i <= j <= |s| && Trimmed(s) == s[i..j]
    ensures (forall k | 0 <= k < i || j <= k < |s| :: IsSpace(s[k]))
    ensures i < j ==> !IsSpace(s[i]) && !IsSpace(s[j - 1])
  {
    hide IsSpace;
    i := TrimLeftIs(s);
    var left := s[i..];
    var n := TrimRightIs(left);
    j := i + n;
    assert left[..n] == s[i..j];
    forall k | j <= k < |s| ensures IsSpace(s[k]) {
      assert left[k - i] == s[k];
    }
    if i < j { assert left[0] == s[i] && left[n - 1] == s[j - 1]; }
  }

  lemma {:induction false} TrimLeftIs(s: Text) returns (i: nat)
    ensures i <= |s| && TrimLeft(s) == s[i..] && (i < |s| ==> !IsSpace(s[i]))
    ensures forall k | 0 <= k < i :: IsSpace(s[k])
  {
    hide IsSpace;
    if s != [] && IsSpace(s[0]) {
      var n := TrimLeftIs(s[1..]);
      i := n + 1;
      assert s[1..][n..] == s[i..];
      forall k | 0 < k < i ensures IsSpace(s[k]) {
        assert s[1..][k - 1] == s[k];
      }
    } else {
      i := 0;
    }
  }

  lemma {:induction false} TrimRightIs(s: Text) returns (n: nat)
    ensures n <= |s| && TrimRight(s) == s[..n] && (n > 0 ==> !IsSpace(s[n - 1]))
    ensures forall k | n <= k < |s| :: IsSpace(s[k])
    decreases |s|
  {
    hide IsSpace;
    if s != [] && IsSpace(s[|s| - 1]) {
      n := TrimRightIs(s[..|s| - 1]);
      assert s[..|s| - 1][..n] == s[..n];
      forall k | n <= k < |s| ensures IsSpace(s[k]) {
        assert k < |s| - 1 ==> s[..|s| - 1][k] == s[k];
      }
    } else {
      n := |s|;
      assert s[..n] == s;
    }
  }

  /** The normal form is the trimmed path with its slashes turned, put below the root, and
      cut before its trailing slashes, of which at most the root is kept. */
  lemma NormalForm(path: Text) returns (rooted: Text, n: nat)
    ensures var t := Trimmed(path);
            && |rooted| == |t| + (if t != [] && (t[0] == 0x2F || t[0] == 0x5C) then 0 else 1) && rooted[0] == 0x2F
            && (forall i | 0 <= i < |t| ::
                  rooted[|rooted| - |t| + i] == if t[i] == 0x5C then 0x2F else t[i])
    ensures 1 <= n <= |rooted| && Normalized(path) == rooted[..n]
    ensures (forall i | n <= i < |rooted| :: rooted[i] == 0x2F) && (n > 1 ==> rooted[n - 1] != 0x2F)
  {
    hide Trimmed;
    rooted := Rooted(ForwardSlashes(Trimmed(path)));
    NormalizedIs(path);
    n := ChoppedIs(rooted);
  }

  lemma {:induction false} ChoppedIs(s: Text) returns (n: nat)
    requires s != []
    ensures 1 <= n <= |s| && ChopSlashes(s) == s[..n]
    ensures (forall i | n <= i < |s| :: s[i] == 0x2F) && (n > 1 ==> s[n - 1] != 0x2F)
    decreases |s|
  {
    if |s| > 1 && s[|s| - 1] == SLASH {
      n := ChoppedIs(s[..|s| - 1]);
      assert s[..|s| - 1][..n] == s[..n];
      forall i | n <= i < |s| ensures s[i] == 0x2F {
        assert i < |s| - 1 ==> s[..|s| - 1][i] == s[i];
      }
    } else {
      n := |s|;
      assert s[..n] == s;
    }
  }

  /** Hits are taken entry by entry and directory by directory, in order: files, and others
      only if directories are asked for, whose name or path contains the trimmed query. */
  lemma {:induction false} HitsInOrder(w: World, o: Options, a: seq<PendingDirectory>, d: PendingDirectory,
                                       entries: seq<Entry>, e: Entry)
    ensures HitsIn(w, o, []) == [] && HitsIn(w, o, a + [d]) == HitsIn(w, o, a) + Hits(w, o, Listing(w, d.path))
    ensures Hits(w, o, []) == []
    ensures var query := Trimmed(o.query);
            Hits(w, o, entries + [e]) == Hits(w, o, entries)
              + if (e.kind.File? || o.includeDirectories)
                   && (query == [] || w.contains(e.name, query) || w.contains(e.remotePath, query)) then [e] else []
    ensures w.list(d.path).Ok? ==> Listing(w, d.path) == w.list(d.path).value
  {
    hide Trimmed;
    assert (a + [d])[..|a|] == a && (entries + [e])[..|entries|] == entries;
  }

  /** The unrolling: the start at depth 0, and behind it, level by level and in the order of
      the listings, the directories each directory lists, one deeper. */
  lemma UnrollingInOrder(w: World, start: Text, k: nat, a: seq<PendingDirectory>, d: PendingDirectory)
    ensures Level(w, start, 0) == [PendingDirectory(start, 0)]
    ensures Level(w, start, k + 1) == ChildrenOf(w, Level(w, start, k))
    ensures Levels(w, start, 0) == [] && Levels(w, start, k + 1) == Levels(w, start, k) + Level(w, start, k)
    ensures ChildrenOf(w, []) == []
    ensures ChildrenOf(w, a + [d]) == ChildrenOf(w, a) + Subdirectories(Listing(w, d.path), d.depth + 1)
  {
    hide Subdirectories, Listing, Level, Levels;
    LevelIsChildren(w, start, k);
    LevelsStep(w, start, k);
    FirstLevel(w, start);
    assert (a + [d])[..|a|] == a;
  }

  lemma FirstLevel(w: World, start: Text)
    ensures Level(w, start, 0) == [PendingDirectory(start, 0)] && Levels(w, start, 0) == []
  {
  }

  lemma SubdirectoriesInOrder(entries: seq<Entry>, e: Entry, depth: nat)
    ensures Subdirectories([], depth) == []
    ensures Subdirectories(entries + [e], depth)
         == Subdirectories(entries, depth)
            + if e.kind.Directory? then [PendingDirectory(Normalized(e.remotePath), depth)] else []
  {
    hide Normalized;
    assert (entries + [e])[..|entries|] == entries;
  }

  /** Exactly what a search can find: the wanted entries of the directories it scans. */
  lemma {:induction false} HitsAre(w: World, o: Options, directories: seq<PendingDirectory>, e: Entry)
    ensures e in HitsIn(w, o, directories) <==>
            && (exists d | d in directories :: e in Listing(w, d.path))
            && (e.kind.File? || o.includeDirectories)
            && (var query := Trimmed(o.query);
                query == [] || w.contains(e.name, query) || w.contains(e.remotePath, query))
    decreases |directories|
  {
    hide Trimmed, Listing, Hits, Wanted;
    if directories != [] {
      var before, last := directories[..|directories| - 1], directories[|directories| - 1];
      HitsAre(w, o, before, e);
      HitsOfListing(w, o, Listing(w, last.path), e);
      assert directories == before + [last];
    }
  }

  lemma {:induction false} HitsOfListing(w: World, o: Options, entries: seq<Entry>, e: Entry)
    ensures e in Hits(w, o, entries) <==>
            && e in entries && (e.kind.File? || o.includeDirectories)
            && (var query := Trimmed(o.query);
                query == [] || w.contains(e.name, query) || w.contains(e.remotePath, query))
    decreases |entries|
  {
    hide Trimmed;
    if entries != [] {
      var before, last := entries[..|entries| - 1], entries[|entries| - 1];
      HitsOfListing(w, o, before, e);
      assert entries == before + [last];
    }
  }
}
