/** Eviction from the local cache of remote files. */
module CacheEviction {
  import opened Framing

  /** What the file system knows of a file: time of last change and size. */
  datatype Info = Info(modified: int, size: nat)

  datatype CacheFile = CacheFile(path: Text, modified: int, size: nat)

  datatype Option<T> = None | Some(value: T)

  datatype Options = Options(removeOlderThan: Option<int>, maxSizeBytes: int)

  datatype Cleaned = Cleaned(filesRemoved: nat, bytesRemoved: nat, bytesRemaining: nat)

  /** One attempt to remove a file, and the bytes in the cache just before it. */
  datatype Attempt = Attempt(file: CacheFile, removed: bool, totalBefore: nat)

  type Files = map<Text, Info>

  // -------------------------------------------------------------- total sizes

  ghost function Total(files: Files): nat {
    if files == map[] then 0
    else
      var p :| p in files;
      files[p].size + Total(files - {p})
  }

  lemma {:induction false} TotalWithout(files: Files, p: Text)
    requires p in files
    ensures Total(files) == files[p].size + Total(files - {p})
    decreases |files|
  {
    var q :| q in files && Total(files) == files[q].size + Total(files - {q});
    if q != p {
      TotalWithout(files - {q}, p);
      TotalWithout(files - {p}, q);
      assert files - {q} - {p} == files - {p} - {q};
    }
  }

  function Sum(list: seq<CacheFile>): nat {
    if list == [] then 0 else Sum(list[..|list| - 1]) + list[|list| - 1].size
  }

  /** `list` holds every file once, in whatever order. */
  ghost predicate Lists(list: seq<CacheFile>, files: Files) {
    && (forall i | 0 <= i < |list| ::
          list[i].path in files && files[list[i].path] == Info(list[i].modified, list[i].size))
    && (forall i, j | 0 <= i < j < |list| :: list[i].path != list[j].path)
    && (forall p | p in files :: Contains(list, p))
  }

  ghost predicate Contains(list: seq<CacheFile>, p: Text) {
    exists i :: 0 <= i < |list| && list[i].path == p
  }

  /** Any listing of the files adds up to the same total. */
  lemma {:induction false} SumIsTotal(list: seq<CacheFile>, files: Files)
    requires Lists(list, files)
    ensures Sum(list) == Total(files)
    decreases |list|
  {
    if list == [] {
      assert forall p | p in files :: Contains(list, p);
      assert files == map[];
    } else {
      var last := list[|list| - 1];
      TotalWithout(files, last.path);
      ListsWithoutLast(list, files);
      SumIsTotal(list[..|list| - 1], files - {last.path});
    }
  }

  lemma ListsWithoutLast(list: seq<CacheFile>, files: Files)
    requires list != [] && Lists(list, files)
    ensures Lists(list[..|list| - 1], files - {list[|list| - 1].path})
  {
    var rest, less := list[..|list| - 1], files - {list[|list| - 1].path};
    forall p | p in less ensures Contains(rest, p) {
      assert Contains(list, p);
      var i :| 0 <= i < |list| && list[i].path == p;
      assert rest[i].path == p;
    }
  }

  /** `after` is what is left of `before`: files vanish, none appear or change. */
  ghost predicate Remains(after: Files, before: Files) {
    forall p | p in after :: p in before && after[p] == before[p]
  }

  // ------------------------------------------------------------------ sorting

  predicate OldestFirst(list: seq<CacheFile>) {
    forall i, j | 0 <= i < j < |list| :: list[i].modified <= list[j].modified
  }

  method Insert(list: seq<CacheFile>, f: CacheFile) returns (r: seq<CacheFile>)
    requires OldestFirst(list)
    ensures OldestFirst(r) && multiset(r) == multiset(list) + multiset{f}
  {
    hide OldestFirst;
    var k := |list|;
    while k > 0 && list[k - 1].modified > f.modified
      invariant 0 <= k <= |list| && (k < |list| ==> list[k].modified > f.modified)
    {
      k := k - 1;
    }
    r := list[..k] + [f] + list[k..];
    InsertedOldestFirst(list, k, f);
    InsertedMultiset(list, k, f);
  }

  lemma InsertedOldestFirst(list: seq<CacheFile>, k: nat, f: CacheFile)
    requires OldestFirst(list) && k <= |list|
    requires k > 0 ==> list[k - 1].modified <= f.modified
    requires k < |list| ==> f.modified <= list[k].modified
    ensures OldestFirst(list[..k] + [f] + list[k..])
  {
    var r := list[..k] + [f] + list[k..];
    forall i, j | 0 <= i < j < |r| ensures r[i].modified <= r[j].modified {
      var was := (x: int) => if x < k then x else x - 1;
      assert i != k ==> r[i] == list[was(i)];
      assert j != k ==> r[j] == list[was(j)];
    }
  }

  lemma InsertedMultiset(list: seq<CacheFile>, k: nat, f: CacheFile)
    requires k <= |list|
    ensures multiset(list[..k] + [f] + list[k..]) == multiset(list) + multiset{f}
  {
    assert list == list[..k] + list[k..];
  }

  lemma NothingToSort()
    ensures OldestFirst([])
  {
  }

  method SortOldestFirst(list: seq<CacheFile>) returns (r: seq<CacheFile>)
    ensures OldestFirst(r) && multiset(r) == multiset(list)
  {
    hide OldestFirst;
    r := [];
    assert OldestFirst(r) by { NothingToSort(); }
    var i := 0;
    while i < |list|
      invariant 0 <= i <= |list| && OldestFirst(r) && multiset(r) == multiset(list[..i])
    {
      r := Insert(r, list[i]);
      assert list[..i + 1] == list[..i] + [list[i]];
      i := i + 1;
    }
    assert list[..i] == list;
  }

  method TotalSize(list: seq<CacheFile>) returns (total: nat)
    ensures total == Sum(list)
  {
    total := 0;
    var i := 0;
    while i < |list|
      invariant 0 <= i <= |list| && total == Sum(list[..i])
    {
      total := total + list[i].size;
      assert list[..i + 1][..i] == list[..i];
      i := i + 1;
    }
    assert list[..i] == list;
  }

  /** Reordering a listing leaves a listing. */
  lemma ListsPermuted(list: seq<CacheFile>, sorted: seq<CacheFile>, files: Files)
    requires Lists(list, files) && multiset(list) == multiset(sorted)
    ensures Lists(sorted, files)
  {
    forall i | 0 <= i < |sorted|
      ensures sorted[i].path in files && files[sorted[i].path] == Info(sorted[i].modified, sorted[i].size)
    {
      assert sorted[i] in multiset(sorted);
      assert sorted[i] in list;
    }
    forall i, j | 0 <= i < j < |sorted| ensures sorted[i].path != sorted[j].path {
      if sorted[i].path == sorted[j].path {
        SameFile(list, files, sorted[i], sorted[j]);
        TwiceInMultiset(sorted, i, j);
        OnceInMultiset(list, files, sorted[i]);
      }
    }
    forall p | p in files ensures Contains(sorted, p) {
      assert Contains(list, p);
      var i :| 0 <= i < |list| && list[i].path == p;
      assert list[i] in multiset(list);
      assert list[i] in sorted;
    }
  }

  lemma SameFile(list: seq<CacheFile>, files: Files, f: CacheFile, g: CacheFile)
    requires Lists(list, files) && f in multiset(list) && g in multiset(list) && f.path == g.path
    ensures f == g
  {
  }

  lemma TwiceInMultiset(s: seq<CacheFile>, i: nat, j: nat)
    requires i < j < |s| && s[i] == s[j]
    ensures multiset(s)[s[i]] >= 2
  {
    assert s == s[..j] + [s[j]] + s[j + 1..];
    assert s[..j][i] == s[j];
    assert s[j] in multiset(s[..j]);
  }

  lemma NotListed(list: seq<CacheFile>, files: Files, f: CacheFile)
    requires Lists(list, files) && f.path !in files
    ensures multiset(list)[f] == 0
  {
    assert f in multiset(list) <==> f in list;
  }

  lemma {:induction false} OnceInMultiset(list: seq<CacheFile>, files: Files, f: CacheFile)
    requires Lists(list, files)
    ensures multiset(list)[f] <= 1
    decreases |list|
  {
    hide Lists;
    if list != [] {
      var n := |list| - 1;
      ListsWithoutLast(list, files);
      OnceInMultiset(list[..n], files - {list[n].path}, f);
      assert list == list[..n] + [list[n]];
      if list[n] == f { NotListed(list[..n], files - {f.path}, f); }
    }
  }

  // ---------------------------------------------------------------- the cache

  /** The file system refused to remove this file in one of the attempts. */
  ghost predicate Refused(attempts: seq<Attempt>, p: Text) {
    exists k :: 0 <= k < |attempts| && attempts[k].file.path == p && !attempts[k].removed
  }

  lemma RefusedGrows(some: seq<Attempt>, more: seq<Attempt>, p: Text)
    requires Refused(some, p)
    ensures Refused(some + more, p) && Refused(more + some, p)
  {
    var k :| 0 <= k < |some| && some[k].file.path == p && !some[k].removed;
    assert (some + more)[k] == some[k] && (more + some)[|more| + k] == some[k];
  }

  /** Attempts of the age pass only concern files older than the cutoff. */
  ghost predicate AllOlder(attempts: seq<Attempt>, cutoff: int) {
    forall k | 0 <= k < |attempts| :: attempts[k].file.modified < cutoff
  }

  /** Attempts of the size pass go from the oldest file on, each made while the
      cache was still over its limit. */
  ghost predicate OldestFirstAndNeeded(attempts: seq<Attempt>, limit: int) {
    && (forall k, l | 0 <= k < l < |attempts| :: attempts[k].file.modified <= attempts[l].file.modified)
    && (forall k | 0 <= k < |attempts| :: attempts[k].totalBefore > limit)
  }

  /** Nothing older than a file the size pass tried is left, unless protected or refused. */
  ghost predicate OlderOnesGone(attempts: seq<Attempt>, files: Files, guarded: set<Text>) {
    forall k, p | 0 <= k < |attempts| && p in files && files[p].modified < attempts[k].file.modified ::
      p in guarded || Refused(attempts, p)
  }

  ghost predicate RemovedBy(attempts: seq<Attempt>, f: CacheFile) {
    exists k :: 0 <= k < |attempts| && attempts[k].file == f && attempts[k].removed
  }

  /** The totals noted in the attempts lead from `start` to `end`: each removal
      takes off the size of its file, a refused one nothing. */
  predicate Ledger(attempts: seq<Attempt>, start: nat, end: nat) {
    if attempts == [] then start == end
    else
      var last := attempts[|attempts| - 1];
      && Ledger(attempts[..|attempts| - 1], start, last.totalBefore)
      && last.totalBefore == end + if last.removed then last.file.size else 0
  }

  lemma {:induction false} LedgerJoins(first: seq<Attempt>, second: seq<Attempt>, a: nat, b: nat, c: nat)
    requires Ledger(first, a, b) && Ledger(second, b, c)
    ensures Ledger(first + second, a, c)
    decreases |second|
  {
    if second == [] {
      assert first + second == first;
    } else {
      var front, last := second[..|second| - 1], second[|second| - 1];
      LedgerJoins(first, front, a, b, last.totalBefore);
      assert (first + second)[..|first + second| - 1] == first + front;
    }
  }

  /** Whatever vanished was removed in one of the attempts, and the totals they
      note are those of the cache. */
  ghost predicate Logged(before: Files, after: Files, attempts: seq<Attempt>) {
    && Ledger(attempts, Total(before), Total(after))
    && forall p | p in before && p !in after :: RemovedBy(attempts, CacheFile(p, before[p].modified, before[p].size))
  }

  lemma RemovedByGrows(some: seq<Attempt>, more: seq<Attempt>, f: CacheFile)
    requires RemovedBy(some, f)
    ensures RemovedBy(some + more, f) && RemovedBy(more + some, f)
  {
    var k :| 0 <= k < |some| && some[k].file == f && some[k].removed;
    assert (some + more)[k] == some[k] && (more + some)[|more| + k] == some[k];
  }

  lemma LoggedTransitive(a: Files, b: Files, c: Files, first: seq<Attempt>, second: seq<Attempt>)
    requires Remains(b, a) && Logged(a, b, first) && Logged(b, c, second)
    ensures Logged(a, c, first + second)
  {
    hide Total;
    LedgerJoins(first, second, Total(a), Total(b), Total(c));
    forall p | p in a && p !in c ensures RemovedBy(first + second, CacheFile(p, a[p].modified, a[p].size)) {
      if p in b {
        RemovedByGrows(second, first, CacheFile(p, a[p].modified, a[p].size));
      } else {
        RemovedByGrows(first, second, CacheFile(p, a[p].modified, a[p].size));
      }
    }
  }

  /** What the attempts by age leave. */
  ghost predicate AgedOut(o: Options, files: Files, guarded: set<Text>, attempts: seq<Attempt>) {
    match o.removeOlderThan
    case None => attempts == []
    case Some(cutoff) =>
      && AllOlder(attempts, cutoff)
      && forall p | p in files && files[p].modified < cutoff :: p in guarded || Refused(attempts, p)
  }

  /** What the attempts by size leave. */
  ghost predicate SizedDown(o: Options, files: Files, guarded: set<Text>, attempts: seq<Attempt>) {
    && (o.maxSizeBytes <= 0 ==> attempts == [])
    && OldestFirstAndNeeded(attempts, o.maxSizeBytes)
    && OlderOnesGone(attempts, files, guarded)
    && (o.maxSizeBytes > 0 ==>
          Total(files) <= o.maxSizeBytes
          || forall p | p in files :: p in guarded || Refused(attempts, p))
  }

  /** What one clean-up may do to the cache: `aged` attempts by age, then the
      attempts by size. */
  ghost predicate CleanUp(o: Options, before: Files, after: Files, guarded: set<Text>,
                          attempts: seq<Attempt>, aged: nat)
    requires aged <= |attempts|
  {
    && Remains(after, before)
    && Logged(before, after, attempts)
    && (forall p | p in before && p in guarded :: p in after)
    && AgedOut(o, after, guarded, attempts[..aged])
    && SizedDown(o, after, guarded, attempts[aged..])
  }

  // ------------------------------------------------------- one pass over a list

  /** Between two moments files only vanish, guarded ones do not, and the counters
      account for what vanished. */
  ghost predicate Accounted(before: Files, after: Files, guarded: set<Text>, start: Cleaned, now: Cleaned) {
    && Remains(after, before)
    && (forall p | p in before && p in guarded :: p in after)
    && |after| + now.filesRemoved == |before| + start.filesRemoved
    && Total(after) + now.bytesRemoved == Total(before) + start.bytesRemoved
  }

  lemma AccountedTransitive(a: Files, b: Files, c: Files, guarded: set<Text>, x: Cleaned, y: Cleaned, z: Cleaned)
    requires Accounted(a, b, guarded, x, y) && Accounted(b, c, guarded, y, z)
    ensures Accounted(a, c, guarded, x, z)
  {
    hide Total;
  }

  /** Files from position `i` on are still there. */
  ghost predicate Ahead(list: seq<CacheFile>, i: nat, files: Files) {
    forall j | i <= j < |list| ::
      list[j].path in files && files[list[j].path] == Info(list[j].modified, list[j].size)
  }

  /** A file a pass concerns: any, or those older than a cutoff. */
  predicate Concerns(cutoff: Option<int>, modified: int) { cutoff.Some? ==> modified < cutoff.value }

  /** Of the first `i` files, those concerned are gone, guarded or refused. */
  ghost predicate Settled(list: seq<CacheFile>, i: nat, cutoff: Option<int>, files: Files, guarded: set<Text>,
                          tried: seq<Attempt>) {
    forall j | 0 <= j < i && j < |list| && list[j].path in files && Concerns(cutoff, list[j].modified) ::
      list[j].path in guarded || Refused(tried, list[j].path)
  }

  /** What the removal of file `i` adds to the attempts. */
  function AttemptOn(f: CacheFile, guarded: set<Text>, ok: bool, total: nat): seq<Attempt> {
    if f.path in guarded then [] else [Attempt(f, ok, total)]
  }

  lemma AheadStep(list: seq<CacheFile>, i: nat, all: Files, files: Files, ok: bool)
    requires Lists(list, all) && i < |list| && Ahead(list, i, files)
    ensures Ahead(list, i + 1, if ok then files - {list[i].path} else files)
  {
  }

  lemma SettledSkip(list: seq<CacheFile>, i: nat, cutoff: Option<int>, files: Files, guarded: set<Text>,
                    tried: seq<Attempt>)
    requires Settled(list, i, cutoff, files, guarded, tried) && i < |list| && !Concerns(cutoff, list[i].modified)
    ensures Settled(list, i + 1, cutoff, files, guarded, tried)
  {
  }

  lemma SettledStep(list: seq<CacheFile>, i: nat, cutoff: Option<int>, files: Files, guarded: set<Text>,
                    tried: seq<Attempt>, ok: bool, total: nat)
    requires Settled(list, i, cutoff, files, guarded, tried) && i < |list|
    requires list[i].path in guarded ==> !ok
    ensures Settled(list, i + 1, cutoff, if ok then files - {list[i].path} else files, guarded,
                    tried + AttemptOn(list[i], guarded, ok, total))
  {
    var left := if ok then files - {list[i].path} else files;
    var more := AttemptOn(list[i], guarded, ok, total);
    forall j | 0 <= j < i + 1 && list[j].path in left && Concerns(cutoff, list[j].modified)
      ensures list[j].path in guarded || Refused(tried + more, list[j].path)
    {
      if list[j].path !in guarded {
        if j < i { RefusedGrows(tried, more, list[j].path); }
        else { assert (tried + more)[|tried|] == Attempt(list[i], ok, total); }
      }
    }
  }

  /** One removal, made or refused, keeps what both passes keep. */
  lemma PassStep(list: seq<CacheFile>, i: nat, cutoff: Option<int>, all: Files, files: Files, guarded: set<Text>,
                 tried: seq<Attempt>, ok: bool, total: nat, start: Cleaned, before: Cleaned, now: Cleaned)
    requires Lists(list, all) && i < |list| && Ahead(list, i, files) && (list[i].path in guarded ==> !ok)
    requires Accounted(all, files, guarded, start, before) && Logged(all, files, tried)
    requires Settled(list, i, cutoff, files, guarded, tried)
    requires var left := if ok then files - {list[i].path} else files;
             && Accounted(files, left, guarded, before, now)
             && Logged(files, left, AttemptOn(list[i], guarded, ok, total))
    ensures var left := if ok then files - {list[i].path} else files;
            var more := tried + AttemptOn(list[i], guarded, ok, total);
            && Ahead(list, i + 1, left) && Accounted(all, left, guarded, start, now) && Logged(all, left, more)
            && Settled(list, i + 1, cutoff, left, guarded, more)
  {
    hide Lists, Ahead, Settled, AttemptOn, Logged, Accounted, Remains;
    var left := if ok then files - {list[i].path} else files;
    AheadStep(list, i, all, files, ok);
    AccountedRemains(all, files, guarded, start, before);
    AccountedTransitive(all, files, left, guarded, start, before, now);
    LoggedTransitive(all, files, left, tried, AttemptOn(list[i], guarded, ok, total));
    SettledStep(list, i, cutoff, files, guarded, tried, ok, total);
  }

  lemma AllSettled(list: seq<CacheFile>, cutoff: Option<int>, all: Files, files: Files, guarded: set<Text>,
                   tried: seq<Attempt>)
    requires Lists(list, all) && Remains(files, all) && Settled(list, |list|, cutoff, files, guarded, tried)
    ensures forall p | p in files && Concerns(cutoff, files[p].modified) :: p in guarded || Refused(tried, p)
  {
    forall p | p in files && Concerns(cutoff, files[p].modified) ensures p in guarded || Refused(tried, p) {
      assert Contains(list, p);
    }
  }

  lemma AllOlderStep(tried: seq<Attempt>, cutoff: int, more: seq<Attempt>)
    requires AllOlder(tried, cutoff) && AllOlder(more, cutoff)
    ensures AllOlder(tried + more, cutoff)
  {
  }

  /** No attempt so far was on a file younger than file `i`. */
  ghost predicate NoneYounger(list: seq<CacheFile>, i: nat, tried: seq<Attempt>) {
    i < |list| ==> forall k | 0 <= k < |tried| :: tried[k].file.modified <= list[i].modified
  }

  lemma SizeStep(list: seq<CacheFile>, i: nat, limit: int, guarded: set<Text>, tried: seq<Attempt>,
                 ok: bool, total: nat)
    requires OldestFirst(list) && i < |list| && OldestFirstAndNeeded(tried, limit) && NoneYounger(list, i, tried)
    requires total > limit
    ensures var more := tried + AttemptOn(list[i], guarded, ok, total);
            OldestFirstAndNeeded(more, limit) && NoneYounger(list, i + 1, more)
  {
    if i + 1 < |list| { assert list[i].modified <= list[i + 1].modified; }
  }

  lemma NotYounger(list: seq<CacheFile>, i: nat, j: nat)
    requires OldestFirst(list)
    ensures i <= j < |list| ==> list[i].modified <= list[j].modified
  {
  }

  /** A file left over that is older than one tried lies before it in the list. */
  lemma NothingOlderLeft(list: seq<CacheFile>, i: nat, all: Files, files: Files, guarded: set<Text>,
                         tried: seq<Attempt>)
    requires Lists(list, all) && OldestFirst(list) && i <= |list| && Remains(files, all)
    requires Settled(list, i, None, files, guarded, tried) && NoneYounger(list, i, tried)
    ensures OlderOnesGone(tried, files, guarded)
  {
    forall k, p | 0 <= k < |tried| && p in files && files[p].modified < tried[k].file.modified
      ensures p in guarded || Refused(tried, p)
    {
      assert Contains(list, p);
      var j :| 0 <= j < |list| && list[j].path == p;
      NotYounger(list, i, j);
    }
  }

  class TempFileCache {
    const absolute: Text -> Text          // the absolute form of a local path
    const removable: (nat, Text) -> bool  // whether the n-th removal succeeds
    var rootExists: bool
    var files: Files
    var protectedPaths: set<Text>
    var removals: nat
    ghost var attempts: seq<Attempt>

    ghost predicate Valid() reads this { !rootExists ==> files == map[] }

    /** The attempts note what the file system answered, one removal each. */
    ghost predicate Truthful()
      reads `removals, `attempts
    {
      |attempts| == removals
      && forall k | 0 <= k < removals :: attempts[k].removed == removable(k, attempts[k].file.path)
    }

    predicate IsProtected(p: Text) reads this`protectedPaths { absolute(p) in protectedPaths }

    /** The files protected now. */
    ghost function Guarded(of: Files): set<Text>
      reads this`protectedPaths
    {
      set p | p in of && IsProtected(p)
    }

    constructor (absolute: Text -> Text, removable: (nat, Text) -> bool, rootExists: bool, files: Files)
      requires !rootExists ==> files == map[]
      ensures Valid() && Truthful() && this.files == files && protectedPaths == {} && attempts == []
      ensures this.absolute == absolute && this.removable == removable && this.rootExists == rootExists
    {
      this.absolute, this.removable, this.rootExists, this.files := absolute, removable, rootExists, files;
      protectedPaths, removals, attempts := {}, 0, [];
    }

    method ProtectPath(path: Text)
      modifies this`protectedPaths
      ensures forall p :: IsProtected(p) <==> old(IsProtected(p)) || (path != [] && absolute(p) == absolute(path))
    {
      if path == [] { return; }
      protectedPaths := protectedPaths + {absolute(path)};
    }

    method UnprotectPath(path: Text)
      modifies this`protectedPaths
      ensures forall p :: IsProtected(p) <==> old(IsProtected(p)) && (path == [] || absolute(p) != absolute(path))
    {
      if path == [] { return; }
      protectedPaths := protectedPaths - {absolute(path)};
    }

    /** Every file once; in an order the file system chooses. */
    method CollectFiles() returns (list: seq<CacheFile>)
      ensures Lists(list, files)
    {
      list := [];
      hide ListedSoFar;
      var rest := files;
      NoneListed(files);
      while rest != map[]
        invariant ListedSoFar(list, files, rest)
        decreases |rest|
      {
        var p :| p in rest;
        RestIsThere(list, files, rest, p);
        ListedMore(list, files, rest, p);
        list := list + [CacheFile(p, files[p].modified, files[p].size)];
        rest := rest - {p};
      }
      AllListed(list, files);
    }

    /** removeCacheFile: protected files are passed over, and a removal can fail. */
    method RemoveCacheFile(file: CacheFile, result: Cleaned, ghost guarded: set<Text>)
        returns (ok: bool, counted: Cleaned)
      requires file.path in files && files[file.path] == Info(file.modified, file.size)
      requires file.path in guarded <==> IsProtected(file.path)
      requires Truthful()
      modifies this`files, this`removals, this`attempts
      ensures Truthful()
      ensures ok <==> file.path !in guarded && removable(old(removals), file.path)
      ensures attempts == old(attempts) + AttemptOn(file, guarded, ok, Total(old(files)))
      ensures files == if ok then old(files) - {file.path} else old(files)
      ensures Accounted(old(files), files, guarded, result, counted)
      ensures Logged(old(files), files, AttemptOn(file, guarded, ok, Total(old(files))))
      ensures ok ==> Total(files) == Total(old(files)) - file.size
    {
      TotalWithout(files, file.path);
      ok, counted := false, result;
      if IsProtected(file.path) { return; }
      ok := removable(removals, file.path);
      removals := removals + 1;
      attempts := attempts + [Attempt(file, ok, Total(files))];
      assert AttemptOn(file, guarded, ok, Total(files))[0] == Attempt(file, ok, Total(files));
      if !ok { return; }
      files := files - {file.path};
      counted := counted.(filesRemoved := counted.filesRemoved + 1, bytesRemoved := counted.bytesRemoved + file.size);
    }

    /** The first pass: every file older than the cutoff. */
    method AgePass(list: seq<CacheFile>, cutoff: int, result: Cleaned, ghost guarded: set<Text>)
        returns (counted: Cleaned)
      requires Lists(list, files) && forall p | p in files :: p in guarded <==> IsProtected(p)
      requires Truthful()
      modifies this`files, this`removals, this`attempts
      ensures Truthful()
      ensures Accounted(old(files), files, guarded, result, counted)
      ensures |old(attempts)| <= |attempts| && attempts[..|old(attempts)|] == old(attempts)
      ensures Logged(old(files), files, attempts[|old(attempts)|..])
      ensures AllOlder(attempts[|old(attempts)|..], cutoff)
      ensures forall p | p in files && files[p].modified < cutoff ::
        p in guarded || Refused(attempts[|old(attempts)|..], p)
    {
      hide Truthful, Total, Accounted, Ahead, Settled, Refused, AllOlder, AttemptOn, Lists, Remains, Logged;
      counted := result;
      ghost var tried: seq<Attempt> := [];
      var i := 0;
      PassStarts(list, Some(cutoff), files, guarded, result);
      while i < |list|
        invariant Truthful()
        invariant 0 <= i <= |list| && attempts == old(attempts) + tried
        invariant Accounted(old(files), files, guarded, result, counted) && Ahead(list, i, files)
        invariant Logged(old(files), files, tried)
        invariant Settled(list, i, Some(cutoff), files, guarded, tried) && AllOlder(tried, cutoff)
      {
        if list[i].modified < cutoff {
          StillThere(list, i, files);
          ghost var before, countedBefore := files, counted;
          var ok;
          ok, counted := RemoveCacheFile(list[i], counted, guarded);
          PassStep(list, i, Some(cutoff), old(files), before, guarded, tried, ok, Total(before),
                   result, countedBefore, counted);
          OneOlder(list[i], guarded, ok, Total(before), cutoff);
          AllOlderStep(tried, cutoff, AttemptOn(list[i], guarded, ok, Total(before)));
          tried := tried + AttemptOn(list[i], guarded, ok, Total(before));
        } else {
          SettledSkip(list, i, Some(cutoff), files, guarded, tried);
          AheadStep(list, i, old(files), files, false);
        }
        i := i + 1;
      }
      assert attempts[|old(attempts)|..] == tried;
      AccountedRemains(old(files), files, guarded, result, counted);
      AllSettled(list, Some(cutoff), old(files), files, guarded, tried);
      assert forall p | p in files && files[p].modified < cutoff :: Concerns(Some(cutoff), files[p].modified);
    }

    /** The second pass: oldest files first, while the cache is over its limit. */
    method SizePass(list: seq<CacheFile>, total: nat, limit: int, result: Cleaned, ghost guarded: set<Text>)
        returns (counted: Cleaned)
      requires Lists(list, files) && forall p | p in files :: p in guarded <==> IsProtected(p)
      requires OldestFirst(list) && total == Total(files)
      requires Truthful()
      modifies this`files, this`removals, this`attempts
      ensures Truthful()
      ensures Accounted(old(files), files, guarded, result, counted)
      ensures |old(attempts)| <= |attempts| && attempts[..|old(attempts)|] == old(attempts)
      ensures Logged(old(files), files, attempts[|old(attempts)|..])
      ensures OldestFirstAndNeeded(attempts[|old(attempts)|..], limit)
      ensures OlderOnesGone(attempts[|old(attempts)|..], files, guarded)
      ensures Total(files) <= limit
              || forall p | p in files :: p in guarded || Refused(attempts[|old(attempts)|..], p)
    {
      hide Truthful, Total, Accounted, Ahead, Settled, Refused, AttemptOn, OldestFirst, OldestFirstAndNeeded,
        OlderOnesGone, NoneYounger, Lists, Remains, Logged;
      counted := result;
      var remaining := total;
      ghost var tried: seq<Attempt> := [];
      var i := 0;
      PassStarts(list, None, files, guarded, result);
      SizePassStarts(list, limit);
      while i < |list|
        invariant Truthful()
        invariant 0 <= i <= |list| && attempts == old(attempts) + tried && remaining == Total(files)
        invariant Accounted(old(files), files, guarded, result, counted) && Ahead(list, i, files)
        invariant Logged(old(files), files, tried)
        invariant Settled(list, i, None, files, guarded, tried)
        invariant OldestFirstAndNeeded(tried, limit) && NoneYounger(list, i, tried)
      {
        if remaining <= limit { break; }
        StillThere(list, i, files);
        ghost var before, countedBefore := files, counted;
        var ok;
        ok, counted := RemoveCacheFile(list[i], counted, guarded);
        PassStep(list, i, None, old(files), before, guarded, tried, ok, remaining, result, countedBefore, counted);
        SizeStep(list, i, limit, guarded, tried, ok, remaining);
        tried := tried + AttemptOn(list[i], guarded, ok, remaining);
        if ok { remaining := remaining - list[i].size; }
        i := i + 1;
      }
      assert attempts[|old(attempts)|..] == tried;
      AccountedRemains(old(files), files, guarded, result, counted);
      NothingOlderLeft(list, i, old(files), files, guarded, tried);
      if i == |list| {
        AllSettled(list, None, old(files), files, guarded, tried);
        assert forall p | p in files :: Concerns(None, files[p].modified);
      }
    }

    /** The part of cleanup that goes by age. */
    method AgeOut(o: Options, result: Cleaned, ghost guarded: set<Text>) returns (counted: Cleaned)
      requires forall p | p in files :: p in guarded <==> IsProtected(p)
      requires Truthful()
      modifies this`files, this`removals, this`attempts
      ensures Truthful()
      ensures Accounted(old(files), files, guarded, result, counted)
      ensures |old(attempts)| <= |attempts| && attempts[..|old(attempts)|] == old(attempts)
      ensures Logged(old(files), files, attempts[|old(attempts)|..])
      ensures AgedOut(o, files, guarded, attempts[|old(attempts)|..])
    {
      hide Truthful, Lists, Accounted, Logged, AgedOut, AllOlder, Refused, Settled, Ahead;
      counted := result;
      var list := CollectFiles();
      PassStarts(list, None, files, guarded, result);
      NoAttempts(o, files, guarded);
      if o.removeOlderThan.Some? {
        counted := AgePass(list, o.removeOlderThan.value, result, guarded);
        AgePassDone(o, files, guarded, attempts[|old(attempts)|..]);
      }
      if o.removeOlderThan.None? { assert attempts[|old(attempts)|..] == []; }
    }

    /** The part of cleanup that goes by size. */
    method SizeDown(o: Options, result: Cleaned, ghost guarded: set<Text>) returns (counted: Cleaned)
      requires forall p | p in files :: p in guarded <==> IsProtected(p)
      requires Truthful()
      modifies this`files, this`removals, this`attempts
      ensures Truthful()
      ensures Accounted(old(files), files, guarded, result, counted)
      ensures |old(attempts)| <= |attempts| && attempts[..|old(attempts)|] == old(attempts)
      ensures Logged(old(files), files, attempts[|old(attempts)|..])
      ensures SizedDown(o, files, guarded, attempts[|old(attempts)|..])
    {
      hide Truthful, Lists, Accounted, Logged, SizedDown, OldestFirst, OldestFirstAndNeeded, OlderOnesGone, Refused,
        Total, Sum, Settled, Ahead;
      counted := result;
      var list := CollectFiles();
      PassStarts(list, None, files, guarded, result);
      SumIsTotal(list, files);
      var remaining := TotalSize(list);
      if o.maxSizeBytes > 0 && remaining > o.maxSizeBytes {
        var sorted := SortOldestFirst(list);
        ListsPermuted(list, sorted, files);
        counted := SizePass(sorted, remaining, o.maxSizeBytes, result, guarded);
        SizePassDone(o, files, guarded, attempts[|old(attempts)|..]);
      } else {
        NothingToShrink(o, files, guarded);
        assert attempts[|old(attempts)|..] == [];
      }
    }

    /** cleanup; `aged` is the number of removals attempted by age. */
    method CleanupFiles(o: Options) returns (result: Cleaned, ghost aged: nat)
      requires Valid()
      requires Truthful()
      modifies this`files, this`removals, this`attempts
      ensures Truthful()
      ensures Valid() && |old(attempts)| + aged <= |attempts| && attempts[..|old(attempts)|] == old(attempts)
      ensures rootExists ==>
        CleanUp(o, old(files), files, Guarded(old(files)), attempts[|old(attempts)|..], aged)
      ensures !rootExists ==> files == old(files) && attempts == old(attempts)
      ensures |files| + result.filesRemoved == |old(files)|
      ensures Total(files) + result.bytesRemoved == Total(old(files)) && result.bytesRemaining == Total(files)
    {
      hide Truthful, Total, Lists, Sum, Accounted, Logged, Remains, CleanUp, AgedOut, SizedDown;
      result, aged := Cleaned(0, 0, 0), 0;
      if !rootExists {
        NothingThere(files);
        return;
      }
      ghost var before, guarded, older := files, Guarded(files), attempts;
      result := AgeOut(o, result, guarded);
      ghost var between, middle, counted := files, attempts, result;
      AccountedGuarded(before, between, guarded, Cleaned(0, 0, 0), counted);
      aged := |middle| - |older|;
      NoneAdded(before, between);
      result := SizeDown(o, result, guarded);
      AccountedTransitive(before, between, files, guarded, Cleaned(0, 0, 0), counted, result);
      ghost var all := attempts[|older|..];
      Appended(older, middle, attempts);
      LoggedTransitive(before, between, files, middle[|older|..], attempts[|middle|..]);
      assert Guarded(before) == guarded;
      PassesMakeCleanUp(o, before, between, files, guarded, all, aged, counted, result);
      var list := CollectFiles();
      SumIsTotal(list, files);
      var left := TotalSize(list);
      result := result.(bytesRemaining := left);
    }
  }

  lemma NoneAdded(before: Files, between: Files)
    requires Remains(between, before)
    ensures forall p | p in between :: p in before
  {
  }

  lemma Appended(a: seq<Attempt>, b: seq<Attempt>, c: seq<Attempt>)
    requires |a| <= |b| <= |c| && b[..|a|] == a && c[..|b|] == b
    ensures c[..|a|] == a
    ensures c[|a|..][..|b| - |a|] == b[|a|..] && c[|a|..][|b| - |a|..] == c[|b|..]
    ensures b[|a|..] + c[|b|..] == c[|a|..]
  {
    assert c[..|a|] == c[..|b|][..|a|];
  }

  // -------------------------------------------------------------------- listing

  /** `list` holds every file that is not in `rest`, once. */
  ghost predicate ListedSoFar(list: seq<CacheFile>, files: Files, rest: Files) {
    Lists(list, files - rest.Keys) && Remains(rest, files)
  }

  lemma NoneListed(files: Files)
    ensures ListedSoFar([], files, files)
  {
  }

  lemma RestIsThere(list: seq<CacheFile>, files: Files, rest: Files, p: Text)
    requires ListedSoFar(list, files, rest) && p in rest
    ensures p in files
  {
  }

  lemma ListedMore(list: seq<CacheFile>, files: Files, rest: Files, p: Text)
    requires ListedSoFar(list, files, rest) && p in rest && p in files
    ensures ListedSoFar(list + [CacheFile(p, files[p].modified, files[p].size)], files, rest - {p})
  {
    var more := list + [CacheFile(p, files[p].modified, files[p].size)];
    var listed := files - (rest - {p}).Keys;
    assert more[|list|].path == p;
    forall q | q in listed ensures Contains(more, q) {
      if q != p {
        assert Contains(list, q);
        var i :| 0 <= i < |list| && list[i].path == q;
        assert more[i] == list[i];
      }
    }
  }

  lemma AllListed(list: seq<CacheFile>, files: Files)
    requires ListedSoFar(list, files, map[])
    ensures Lists(list, files)
  {
    assert files - {} == files;
  }

  // ---------------------------------------------------- starts and ends of a pass

  lemma PassStarts(list: seq<CacheFile>, cutoff: Option<int>, files: Files, guarded: set<Text>, start: Cleaned)
    requires Lists(list, files)
    ensures Accounted(files, files, guarded, start, start) && Ahead(list, 0, files) && Logged(files, files, [])
    ensures Settled(list, 0, cutoff, files, guarded, [])
    ensures cutoff.Some? ==> AllOlder([], cutoff.value)
  {
  }

  lemma SizePassStarts(list: seq<CacheFile>, limit: int)
    ensures OldestFirstAndNeeded([], limit) && NoneYounger(list, 0, [])
  {
  }

  lemma StillThere(list: seq<CacheFile>, i: nat, files: Files)
    requires Ahead(list, i, files) && i < |list|
    ensures list[i].path in files && files[list[i].path] == Info(list[i].modified, list[i].size)
  {
  }

  lemma OneOlder(f: CacheFile, guarded: set<Text>, ok: bool, total: nat, cutoff: int)
    requires f.modified < cutoff
    ensures AllOlder(AttemptOn(f, guarded, ok, total), cutoff)
  {
  }

  lemma AccountedRemains(before: Files, after: Files, guarded: set<Text>, start: Cleaned, now: Cleaned)
    requires Accounted(before, after, guarded, start, now)
    ensures Remains(after, before)
  {
  }

  lemma AccountedGuarded(before: Files, after: Files, guarded: set<Text>, start: Cleaned, now: Cleaned)
    requires Accounted(before, after, guarded, start, now)
    ensures Remains(after, before)
    ensures |after| + now.filesRemoved == |before| + start.filesRemoved
    ensures Total(after) + now.bytesRemoved == Total(before) + start.bytesRemoved
  {
    hide Total;
  }

  lemma NoAttempts(o: Options, files: Files, guarded: set<Text>)
    ensures o.removeOlderThan.None? ==> AgedOut(o, files, guarded, [])
  {
  }

  lemma AgePassDone(o: Options, files: Files, guarded: set<Text>, attempts: seq<Attempt>)
    requires o.removeOlderThan.Some? && AllOlder(attempts, o.removeOlderThan.value)
    requires forall p | p in files && files[p].modified < o.removeOlderThan.value ::
      p in guarded || Refused(attempts, p)
    ensures AgedOut(o, files, guarded, attempts)
  {
    hide AllOlder, Refused;
  }

  lemma SizePassDone(o: Options, files: Files, guarded: set<Text>, attempts: seq<Attempt>)
    requires o.maxSizeBytes > 0 && OldestFirstAndNeeded(attempts, o.maxSizeBytes)
    requires OlderOnesGone(attempts, files, guarded)
    requires Total(files) <= o.maxSizeBytes || forall p | p in files :: p in guarded || Refused(attempts, p)
    ensures SizedDown(o, files, guarded, attempts)
  {
    hide Total, OldestFirstAndNeeded, OlderOnesGone, Refused;
  }

  lemma NothingToShrink(o: Options, files: Files, guarded: set<Text>)
    requires o.maxSizeBytes <= 0 || Total(files) <= o.maxSizeBytes
    ensures SizedDown(o, files, guarded, [])
  {
    hide Total;
  }

  lemma PassesMakeCleanUp(o: Options, before: Files, between: Files, after: Files, guarded: set<Text>,
                          attempts: seq<Attempt>, aged: nat, counted: Cleaned, result: Cleaned)
    requires aged <= |attempts|
    requires Accounted(before, after, guarded, Cleaned(0, 0, 0), result)
    requires Accounted(between, after, guarded, counted, result)
    requires Logged(before, after, attempts)
    requires AgedOut(o, between, guarded, attempts[..aged]) && SizedDown(o, after, guarded, attempts[aged..])
    ensures CleanUp(o, before, after, guarded, attempts, aged)
    ensures |after| + result.filesRemoved == |before| && Total(after) + result.bytesRemoved == Total(before)
  {
    hide Total, AllOlder, Refused, SizedDown, Logged;
  }

  lemma NothingThere(files: Files)
    requires files == map[]
    ensures Total(files) == 0
  {
  }
}
