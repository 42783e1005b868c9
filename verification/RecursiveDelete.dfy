/** Recursive and wildcard delete against a server that keeps a tree of names. */
module RecursiveDelete {
  import opened Bytes
  import opened RemotePath
  import Wildcard

  /** Kinds of entries; links are reparse points, to a file or to a directory. */
  datatype Kind = File | Directory | FileLink | DirectoryLink {
    predicate IsDirectory() { Directory? || DirectoryLink? }
    predicate IsReparse() { FileLink? || DirectoryLink? }
  }

  /** The share as its paths show it: what a directory link leads to is visible
      below the link. */
  type Tree = map<Path, Kind>

  datatype Entry = Entry(name: bytes, directory: bool, reparse: bool)

  datatype Call = Stat(path: Path) | List(path: Path) | Delete(path: Path)

  /** A child of `p` as a listing shows it. */
  function EntryFor(name: bytes, kind: Kind): Entry {
    Entry(name, kind.IsDirectory(), kind.IsReparse())
  }

  ghost predicate WellFormed(tree: Tree) {
    forall q | q in tree && q != [] ::
      && q[..|q| - 1] in tree && tree[q[..|q| - 1]].IsDirectory()
      && GoodName(q[|q| - 1])
  }

  ghost function Below(tree: Tree, p: Path): set<Path> {
    set q | q in tree && p <= q
  }

  /** The tree without the subtree at `p`. */
  ghost function Without(tree: Tree, p: Path): Tree {
    map q | q in tree && !(p <= q) :: tree[q]
  }

  /** The tree without the subtrees of those children of `p` whose names are in `names`. */
  ghost function WithoutChildren(tree: Tree, p: Path, names: set<bytes>): Tree {
    map q | q in tree && !(p < q && q[|p|] in names) :: tree[q]
  }

  /** `after` keeps every node of `before` outside the subtree at `p`, and adds or
      changes nothing. */
  ghost predicate OnlyBelowMissing(before: Tree, after: Tree, p: Path) {
    && (forall q | q in after :: q in before && after[q] == before[q])
    && (forall q | q in before && !(p <= q) :: q in after)
  }

  ghost predicate OnlyChildrenMissing(before: Tree, after: Tree, p: Path, names: set<bytes>) {
    && (forall q | q in after :: q in before && after[q] == before[q])
    && (forall q | q in before && !(p < q && q[|p|] in names) :: q in after)
  }

  /** No proper prefix of `q` from length `from` on is a reparse point. */
  ghost predicate NotThroughLink(tree: Tree, from: nat, q: Path) {
    forall k | from <= k < |q| :: q[..k] in tree ==> !tree[q[..k]].IsReparse()
  }

  /** Every call names a node at or below `p` that is reached without passing a
      reparse point at or below `p`. */
  ghost predicate CallsStayInside(tree: Tree, p: Path, calls: seq<Call>) {
    forall c | c in calls :: p <= c.path && NotThroughLink(tree, |p|, c.path)
  }

  /** `entries` lists the children of `p`, besides dot entries. */
  predicate IsListing(tree: Tree, p: Path, entries: seq<Entry>) {
    && (forall e | e in entries && !IsDotEntry(e.name) ::
          p + [e.name] in tree && tree[p + [e.name]].IsDirectory() == e.directory
          && tree[p + [e.name]].IsReparse() == e.reparse)
    && (forall q | q in tree && |q| == |p| + 1 && p <= q :: exists e | e in entries :: e.name == q[|p|])
    && (forall i, j | 0 <= i < j < |entries| :: entries[i].name != entries[j].name)
  }

  ghost function NamesOf(entries: seq<Entry>): set<bytes> {
    set e | e in entries :: e.name
  }

  // ------------------------------------------------------------- tree facts

  lemma {:induction false} AncestorsExist(tree: Tree, q: Path, k: nat)
    requires WellFormed(tree) && q in tree && k <= |q|
    ensures q[..k] in tree
    decreases |q|
  {
    if k < |q| {
      AncestorsExist(tree, q[..|q| - 1], k);
      assert q[..|q| - 1][..k] == q[..k];
    } else {
      assert q[..k] == q;
    }
  }

  lemma WithoutWellFormed(tree: Tree, p: Path)
    requires WellFormed(tree)
    ensures WellFormed(Without(tree, p))
  {
    forall q | q in Without(tree, p) && q != [] ensures q[..|q| - 1] in Without(tree, p) {
      assert !(p <= q[..|q| - 1]);
    }
  }

  /** Removing one more child subtree. */
  lemma RemoveChild(tree: Tree, p: Path, names: set<bytes>, name: bytes)
    ensures Without(WithoutChildren(tree, p, names), p + [name]) == WithoutChildren(tree, p, names + {name})
  {
    var a, b := Without(WithoutChildren(tree, p, names), p + [name]), WithoutChildren(tree, p, names + {name});
    forall q ensures q in a <==> q in b {
      ChildPrefix(p, name, q);
    }
  }

  lemma ChildPrefix(p: Path, name: bytes, q: Path)
    ensures p + [name] <= q <==> p < q && q[|p|] == name
  {
    if p < q && q[|p|] == name {
      assert q[..|p| + 1] == p + [name];
    }
    if p + [name] <= q {
      assert q[..|p| + 1] == p + [name];
      assert p == q[..|p|];
    }
  }

  lemma DescendantsNamed(tree: Tree, p: Path, names: set<bytes>, q: Path)
    requires WellFormed(tree) && (forall n | p + [n] in tree :: n in names) && q in tree && p < q
    ensures q[|p|] in names
  {
    hide WellFormed;
    AncestorsExist(tree, q, |p| + 1);
    assert q[..|p| + 1] == p + [q[|p|]];
  }

  /** With every child subtree gone, removing the directory itself removes the subtree. */
  lemma RemoveEmptied(tree: Tree, p: Path, names: set<bytes>)
    requires WellFormed(tree) && forall n | p + [n] in tree :: n in names
    ensures Without(WithoutChildren(tree, p, names), p) == Without(tree, p)
    ensures p in tree ==> Below(WithoutChildren(tree, p, names), p) == {p}
  {
    hide WellFormed;
    var emptied := WithoutChildren(tree, p, names);
    forall q | q in emptied && p <= q ensures q == p {
      if p < q { DescendantsNamed(tree, p, names, q); }
    }
  }

  lemma WithoutNothing(tree: Tree, p: Path)
    ensures WithoutChildren(tree, p, {}) == tree
  {
  }

  /** A child subtree not yet removed is as it was. */
  lemma UntouchedChild(tree: Tree, p: Path, names: set<bytes>, name: bytes, q: Path)
    requires name !in names && p + [name] <= q
    ensures q in WithoutChildren(tree, p, names) <==> q in tree
    ensures q in tree ==> WithoutChildren(tree, p, names)[q] == tree[q]
  {
    ChildPrefix(p, name, q);
  }

  /** Every call names a node strictly below `p` that is reached without passing a
      reparse point strictly below `p`. */
  ghost predicate CallsStayUnder(tree: Tree, p: Path, calls: seq<Call>) {
    forall c | c in calls :: p < c.path && NotThroughLink(tree, |p| + 1, c.path)
  }

  lemma StayUnderParent(tree: Tree, p: Path, names: set<bytes>, name: bytes, before: seq<Call>, after: seq<Call>)
    requires name !in names && AddedInside(WithoutChildren(tree, p, names), p + [name], before, after)
    ensures AddedUnder(tree, p, before, after)
  {
    hide WithoutChildren;
    var calls := after[|before|..];
    forall c | c in calls ensures p < c.path && NotThroughLink(tree, |p| + 1, c.path) {
      var q := c.path;
      ChildPrefix(p, name, q);
      forall k | |p| + 1 <= k < |q| && q[..k] in tree ensures !tree[q[..k]].IsReparse() {
        assert q[..k][..|p|] == q[..|p|] && q[..k][|p|] == name;
        ChildPrefix(p, name, q[..k]);
        UntouchedChild(tree, p, names, name, q[..k]);
      }
    }
  }

  lemma UnderIsInside(tree: Tree, p: Path, calls: seq<Call>)
    requires p in tree && !tree[p].IsReparse() && CallsStayUnder(tree, p, calls)
    ensures CallsStayInside(tree, p, calls)
  {
    forall c | c in calls ensures NotThroughLink(tree, |p|, c.path) {
      assert c.path[..|p|] == p;
    }
  }

  /** The calls made between two points of the log stay inside the subtree at `p`. */
  ghost predicate AddedInside(tree: Tree, p: Path, before: seq<Call>, after: seq<Call>) {
    before <= after && CallsStayInside(tree, p, after[|before|..])
  }

  ghost predicate AddedUnder(tree: Tree, p: Path, before: seq<Call>, after: seq<Call>) {
    before <= after && CallsStayUnder(tree, p, after[|before|..])
  }

  lemma AddedNothing(tree: Tree, p: Path, calls: seq<Call>)
    ensures AddedInside(tree, p, calls, calls) && AddedUnder(tree, p, calls, calls)
  {
  }

  lemma AddedOne(tree: Tree, p: Path, before: seq<Call>, now: seq<Call>, call: Call)
    requires AddedInside(tree, p, before, now) && call.path == p
    ensures AddedInside(tree, p, before, now + [call])
  {
    assert (now + [call])[|before|..] == now[|before|..] + [call];
  }

  lemma AddedMore(tree: Tree, p: Path, before: seq<Call>, now: seq<Call>, after: seq<Call>)
    requires AddedUnder(tree, p, now, after)
    ensures AddedUnder(tree, p, before, now) ==> AddedUnder(tree, p, before, after)
    ensures AddedInside(tree, p, before, now) && p in tree && !tree[p].IsReparse() ==>
      AddedInside(tree, p, before, after)
  {
    if before <= now {
      assert after[|before|..] == now[|before|..] + after[|now|..];
    }
    if p in tree && !tree[p].IsReparse() { UnderIsInside(tree, p, after[|now|..]); }
  }

  lemma AddedBoth(tree: Tree, p: Path, before: seq<Call>, now: seq<Call>, after: seq<Call>)
    requires AddedInside(tree, p, before, now) && AddedInside(tree, p, now, after)
    ensures AddedInside(tree, p, before, after)
  {
    assert after[|before|..] == now[|before|..] + after[|now|..];
  }

  lemma ChildSubtreeSmaller(tree: Tree, p: Path, names: set<bytes>, name: bytes)
    requires p in tree
    ensures Below(WithoutChildren(tree, p, names), p + [name]) < Below(tree, p)
  {
    assert p in Below(tree, p) && p !in Below(WithoutChildren(tree, p, names), p + [name]);
    forall q | q in Below(WithoutChildren(tree, p, names), p + [name]) ensures q in Below(tree, p) {
      ChildPrefix(p, name, q);
    }
  }

  lemma NamesGrow(entries: seq<Entry>, i: nat)
    requires i < |entries|
    ensures NamesOf(entries[..i + 1]) == NamesOf(entries[..i]) + {entries[i].name}
  {
    assert entries[..i + 1] == entries[..i] + [entries[i]];
  }

  lemma GoodChild(tree: Tree, p: Path, name: bytes)
    requires WellFormed(tree) && p + [name] in tree
    ensures GoodName(name)
  {
    hide GoodName;
    var q := p + [name];
    assert q != [] && q[|q| - 1] == name;
  }

  /** What a listing of a well-formed tree says about its `i`-th entry. */
  lemma ListedEntry(tree: Tree, p: Path, entries: seq<Entry>, i: nat)
    requires WellFormed(tree) && IsListing(tree, p, entries) && i < |entries| && !IsDotEntry(entries[i].name)
    ensures var name := entries[i].name;
            && GoodName(name) && p + [name] in tree && tree[p + [name]].IsDirectory() == entries[i].directory
            && tree[p + [name]].IsReparse() == entries[i].reparse && name !in NamesOf(entries[..i])
            && NamesOf(entries[..i + 1]) == NamesOf(entries[..i]) + {name}
            && entries[i] == EntryFor(name, tree[p + [name]])
  {
    hide GoodName, WellFormed, IsDotEntry;
    assert entries[i] in entries;
    GoodChild(tree, p, entries[i].name);
    NamesGrow(entries, i);
  }

  lemma ListedAll(tree: Tree, p: Path, entries: seq<Entry>)
    requires IsListing(tree, p, entries)
    ensures forall n | p + [n] in tree :: n in NamesOf(entries)
  {
    forall n | p + [n] in tree ensures n in NamesOf(entries) {
      var q := p + [n];
      var e :| e in entries && e.name == q[|p|];
    }
  }

  lemma ChildrenAreBelow(tree: Tree, after: Tree, p: Path, names: set<bytes>)
    requires OnlyChildrenMissing(tree, after, p, names)
    ensures OnlyBelowMissing(tree, after, p)
  {
  }

  lemma FailedChild(tree: Tree, after: Tree, p: Path, names: set<bytes>, name: bytes)
    requires OnlyBelowMissing(WithoutChildren(tree, p, names), after, p + [name])
    ensures OnlyChildrenMissing(tree, after, p, names + {name})
  {
    forall q | q in tree && !(p < q && q[|p|] in names + {name}) ensures q in after {
      ChildPrefix(p, name, q);
    }
  }

  /** `kept` is what remains of the first `i` entries without the dot entries. */
  ghost predicate Kept(all: seq<Entry>, i: nat, kept: seq<Entry>)
    requires i <= |all|
  {
    && (forall e | e in kept :: !IsDotEntry(e.name) && exists k | 0 <= k < i :: all[k] == e)
    && (forall k | 0 <= k < i :: IsDotEntry(all[k].name) || all[k] in kept)
    && (forall a, b | 0 <= a < b < |kept| :: kept[a].name != kept[b].name)
  }

  lemma NothingKept(all: seq<Entry>)
    ensures Kept(all, 0, [])
  {
  }

  lemma KeepNext(all: seq<Entry>, i: nat, kept: seq<Entry>)
    requires i < |all| && Kept(all, i, kept) && forall k | 0 <= k < i :: all[k].name != all[i].name
    ensures Kept(all, i + 1, if IsDotEntry(all[i].name) then kept else kept + [all[i]])
  {
    var more := if IsDotEntry(all[i].name) then kept else kept + [all[i]];
    forall e | e in more ensures exists k | 0 <= k < i + 1 :: all[k] == e {
      if e in kept {
        var k :| 0 <= k < i && all[k] == e;
      } else {
        assert all[i] == e;
      }
    }
  }

  lemma ListedOnce(tree: Tree, p: Path, all: seq<Entry>, i: nat)
    requires IsListing(tree, p, all) && i < |all|
    ensures forall k | 0 <= k < i :: all[k].name != all[i].name
  {
  }

  lemma KeptListing(tree: Tree, p: Path, all: seq<Entry>, kept: seq<Entry>)
    requires WellFormed(tree) && IsListing(tree, p, all) && Kept(all, |all|, kept)
    ensures IsListing(tree, p, kept) && forall e | e in kept :: !IsDotEntry(e.name)
  {
    hide WellFormed, IsDotEntry;
    forall q | q in tree && |q| == |p| + 1 && p <= q ensures exists e | e in kept :: e.name == q[|p|] {
      var e :| e in all && e.name == q[|p|];
      assert q == p + [e.name];
      NotDot(tree, p, e.name);
      assert e in kept;
    }
  }

  lemma NotDot(tree: Tree, p: Path, name: bytes)
    requires WellFormed(tree) && p + [name] in tree
    ensures !IsDotEntry(name)
  {
    GoodChild(tree, p, name);
  }

  lemma KindOfEntry(name: bytes, kind: Kind)
    ensures EntryFor(name, kind) == Entry(name, kind.IsDirectory(), kind.IsReparse())
    ensures kind.Directory? <==> kind.IsDirectory() && !kind.IsReparse()
  {
  }

  lemma KeptItself(tree: Tree, p: Path, names: set<bytes>)
    ensures p in tree ==> p in WithoutChildren(tree, p, names) && WithoutChildren(tree, p, names)[p] == tree[p]
  {
  }

  lemma OnlyRootLeft(tree: Tree, after: Tree, names: set<bytes>)
    requires [] in tree && tree[[]].Directory? && after == WithoutChildren(tree, [], names) && Below(after, []) == {[]}
    ensures after == map[[] := Directory]
  {
    forall q | q in after ensures q == [] {
      assert q in Below(after, []);
    }
  }

  lemma RemovedOrNot(before: Tree, after: Tree, p: Path)
    requires after == before || after == Without(before, p)
    ensures OnlyBelowMissing(before, after, p)
  {
  }

  lemma NoNames(entries: seq<Entry>)
    ensures NamesOf(entries[..0]) == {}
  {
  }

  // ------------------------------------------------------------- the server

  /** Every listed entry is a child, and every child not in `rest` is listed. */
  ghost predicate ListedSoFar(tree: Tree, p: Path, entries: seq<Entry>, rest: set<Path>) {
    && (forall e | e in entries ::
          p + [e.name] in tree && p + [e.name] !in rest && e == EntryFor(e.name, tree[p + [e.name]]))
    && (forall q | q in tree && |q| == |p| + 1 && p <= q && q !in rest :: exists e | e in entries :: e.name == q[|p|])
    && (forall i, j | 0 <= i < j < |entries| :: entries[i].name != entries[j].name)
  }

  lemma ListedMore(tree: Tree, p: Path, entries: seq<Entry>, rest: set<Path>, q: Path)
    requires ListedSoFar(tree, p, entries, rest) && q in rest && q in tree && |q| == |p| + 1 && p <= q
    ensures ListedSoFar(tree, p, entries + [EntryFor(q[|p|], tree[q])], rest - {q})
  {
    hide EntryFor;
    var e := EntryFor(q[|p|], tree[q]);
    var more := entries + [e];
    assert e.name == q[|p|] by { NameOfEntry(q[|p|], tree[q]); }
    assert q == p + [q[|p|]];
    forall x | x in tree && |x| == |p| + 1 && p <= x && x !in rest - {q}
      ensures exists y | y in more :: y.name == x[|p|]
    {
      if x == q {
        assert e in more;
      } else {
        var y :| y in entries && y.name == x[|p|];
        assert y in more;
      }
    }
  }

  lemma NameOfEntry(name: bytes, kind: Kind)
    ensures EntryFor(name, kind).name == name
  {
  }

  lemma ListedStart(tree: Tree, p: Path, rest: set<Path>)
    requires forall q | q in tree && |q| == |p| + 1 && p <= q :: q in rest
    ensures ListedSoFar(tree, p, [], rest)
  {
  }

  lemma AllInTree(tree: Tree, p: Path, entries: seq<Entry>)
    requires ListedSoFar(tree, p, entries, {})
    ensures forall e | e in entries :: p + [e.name] in tree
  {
  }

  lemma ListedIsListing(tree: Tree, p: Path, entries: seq<Entry>)
    requires ListedSoFar(tree, p, entries, {})
    ensures IsListing(tree, p, entries)
  {
  }

  /** Dot entries may stand among the others. */
  lemma ListedWithDots(tree: Tree, p: Path, entries: seq<Entry>, dots: seq<Entry>)
    requires WellFormed(tree) && IsListing(tree, p, entries) && (forall e | e in entries :: p + [e.name] in tree)
    requires dots == [Entry([DOT], true, false), Entry([DOT, DOT], true, false)]
    ensures IsListing(tree, p, dots + entries)
  {
    hide WellFormed;
    var all := dots + entries;
    forall e | e in entries ensures !IsDotEntry(e.name) {
      NotDot(tree, p, e.name);
    }
    forall q | q in tree && |q| == |p| + 1 && p <= q ensures exists e | e in all :: e.name == q[|p|] {
      var e :| e in entries && e.name == q[|p|];
      assert e in all;
    }
    DistinctNames(dots, entries);
  }

  lemma DistinctNames(dots: seq<Entry>, entries: seq<Entry>)
    requires dots == [Entry([DOT], true, false), Entry([DOT, DOT], true, false)]
    requires forall e | e in entries :: !IsDotEntry(e.name)
    requires forall i, j | 0 <= i < j < |entries| :: entries[i].name != entries[j].name
    ensures forall i, j | 0 <= i < j < |dots + entries| :: (dots + entries)[i].name != (dots + entries)[j].name
  {
    var all := dots + entries;
    forall i, j | 0 <= i < j < |all| ensures all[i].name != all[j].name {
      assert j >= 2 ==> all[j] == entries[j - 2] && entries[j - 2] in entries;
      if i < 2 {
        assert IsDotEntry(all[i].name);
        if j < 2 { assert |all[0].name| == 1 && |all[1].name| == 2; }
      } else {
        assert all[i] == entries[i - 2];
      }
    }
  }

  // -------------------------------------------------------- polls and calls

  function Stats(calls: seq<Call>): nat {
    if calls == [] then 0 else Stats(calls[..|calls| - 1]) + if calls[|calls| - 1].Stat? then 1 else 0
  }

  function Deletes(calls: seq<Call>): nat {
    if calls == [] then 0 else Deletes(calls[..|calls| - 1]) + if calls[|calls| - 1].Delete? then 1 else 0
  }

  lemma OneMoreCall(calls: seq<Call>, call: Call)
    ensures Stats(calls + [call]) == Stats(calls) + if call.Stat? then 1 else 0
    ensures Deletes(calls + [call]) == Deletes(calls) + if call.Delete? then 1 else 0
  {
    assert (calls + [call])[..|calls|] == calls;
  }

  /** Polls of the token, calls made, calls that failed, stats and deletes among
      them, and the tree. */
  datatype Point = Point(polls: nat, made: nat, failures: nat, stats: nat, deletes: nat, ghost tree: Tree)

  /** What a delete does between two points. Only its last poll may say cancelled, and
      then it returns `Cancelled`, having made fewer stats and deletes than polls. If
      not, it succeeds unless its last call, and only that, failed; its error is that
      call's. On success every poll was followed by one stat or delete, but for `free`
      of these that came without a poll. Without a delete the tree is as it was. */
  ghost predicate Paced(cancelled: nat -> bool, code: nat -> ErrorCode, was: Point, now: Point, r: Result<()>,
                        free: int)
  {
    var polled := now.polls - was.polls;
    var steps := now.stats + now.deletes - was.stats - was.deletes;
    && 0 <= polled && was.stats <= now.stats && was.deletes <= now.deletes
    && (forall i | was.polls <= i < now.polls - 1 :: !cancelled(i))
    && (now.deletes == was.deletes ==> now.tree == was.tree)
    && if polled > 0 && cancelled(now.polls - 1)
       then r == Err(Cancelled) && steps < polled && now.failures == was.failures
       else if r.Ok? then steps == polled + free && now.failures == was.failures
       else && steps <= polled + free && now.failures == was.failures + 1
            && now.made > 0 && r.code == code(now.made - 1)
  }

  lemma PacedNothing(cancelled: nat -> bool, code: nat -> ErrorCode, was: Point)
    ensures Paced(cancelled, code, was, was, Ok(()), 0)
  {
  }

  lemma PacedPoll(cancelled: nat -> bool, code: nat -> ErrorCode, was: Point)
    ensures var now := was.(polls := was.polls + 1);
            if cancelled(was.polls) then forall free :: Paced(cancelled, code, was, now, Err(Cancelled), free)
            else Paced(cancelled, code, was, now, Ok(()), -1)
  {
  }

  /** One call: a stat, a listing, or a delete. */
  lemma PacedCall(cancelled: nat -> bool, code: nat -> ErrorCode, was: Point, now: Point, call: Call, ok: bool)
    requires now.polls == was.polls && now.made == was.made + 1
    requires now.failures == was.failures + if ok then 0 else 1
    requires now.stats == was.stats + if call.Stat? then 1 else 0
    requires now.deletes == was.deletes + if call.Delete? then 1 else 0
    requires !call.Delete? ==> now.tree == was.tree
    ensures Paced(cancelled, code, was, now, if ok then Ok(()) else Err(code(now.made - 1)),
                  if call.List? then 0 else 1)
  {
  }

  lemma PacedThen(cancelled: nat -> bool, code: nat -> ErrorCode, a: Point, b: Point, c: Point, r: Result<()>,
                  free: int, more: int)
    requires Paced(cancelled, code, a, b, Ok(()), free) && Paced(cancelled, code, b, c, r, more)
    requires free <= 0 || b.polls == c.polls
    ensures Paced(cancelled, code, a, c, r, free + more)
  {
  }

  lemma Nothing(r: Result<()>)
    ensures r.Ok? ==> r == Ok(())
  {
    if r.Ok? {
      var nothing := r.value;
      assert nothing == ();
    }
  }

  /** A failure may have been preceded by fewer stats and deletes. */
  lemma PacedFailure(cancelled: nat -> bool, code: nat -> ErrorCode, was: Point, now: Point, e: ErrorCode, free: int)
    requires Paced(cancelled, code, was, now, Err(e), free)
    ensures Paced(cancelled, code, was, now, Err(e), free + 1)
  {
  }

  lemma PacedBounds(cancelled: nat -> bool, code: nat -> ErrorCode, was: Point, now: Point, r: Result<()>, free: int)
    requires Paced(cancelled, code, was, now, r, free)
    ensures now.deletes - was.deletes <= now.polls - was.polls + (if free > 0 then free else 0)
    ensures now.polls >= was.polls && now.stats >= was.stats && now.deletes >= was.deletes
    ensures now.polls > was.polls && cancelled(now.polls - 1) ==> r == Err(Cancelled)
    ensures r.Ok? && free <= 0 ==> now.deletes - was.deletes <= now.polls - was.polls
  {
  }

  /** If the token says cancelled from poll `n` on, at most as many deletes are sent as
      there were polls before it. */
  lemma CancellationStops(cancelled: nat -> bool, code: nat -> ErrorCode, was: Point, now: Point, r: Result<()>,
                          free: int, n: nat)
    requires Paced(cancelled, code, was, now, r, free) && was.polls <= n && forall i | i >= n :: cancelled(i)
    requires now.deletes - was.deletes <= now.polls - was.polls
    ensures now.deletes - was.deletes <= n - was.polls
    ensures now.polls <= n + 1 && (now.polls == n + 1 ==> r == Err(Cancelled))
  {
    assert cancelled(n);
    assert was.polls <= n < now.polls - 1 ==> !cancelled(n);
  }

  /** One share as this client drives it. `Stat`, `List` and `Delete` stand for the
      open/query/close, open/list/close and open/dispose/close sequences. Call number
      n is answered if `reports(n)`; a delete is carried out if `obeys(n)`, so one
      that reports failure may still have happened. Listing order is the server's. */
  class Share {
    const cancelled: nat -> bool  // answers of the cancellation token, poll by poll
    const obeys: nat -> bool
    const reports: nat -> bool
    const dots: nat -> bool       // whether a listing holds dot entries
    const code: nat -> ErrorCode  // what a call that fails is answered
    var tree: Tree
    var polls: nat
    var made: nat                 // calls so far
    ghost var failures: nat       // those answered with an error
    ghost var calls: seq<Call>

    constructor (cancelled: nat -> bool, obeys: nat -> bool, reports: nat -> bool, dots: nat -> bool,
                 code: nat -> ErrorCode, tree: Tree)
      ensures this.cancelled == cancelled && this.obeys == obeys && this.reports == reports && this.dots == dots
      ensures this.code == code && this.tree == tree && calls == []
    {
      this.cancelled, this.obeys, this.reports, this.dots, this.code := cancelled, obeys, reports, dots, code;
      this.tree, polls, made, failures, calls := tree, 0, 0, 0, [];
    }

    /** A server that does and reports what it is asked. */
    ghost predicate Reliable() { forall n :: obeys(n) && reports(n) }

    ghost predicate NeverCancelled() { forall n :: !cancelled(n) }

    ghost function Here(): Point
      reads `polls, `made, `failures, `calls, `tree
    {
      Point(polls, made, failures, Stats(calls), Deletes(calls), tree)
    }

    lemma HereIs()
      ensures Here() == Point(polls, made, failures, Stats(calls), Deletes(calls), tree)
    {
    }

    method IsCancelled() returns (c: bool)
      modifies `polls
      ensures c == cancelled(old(polls)) && polls == old(polls) + 1
      ensures Here() == old(Here()).(polls := polls) && Here().polls == polls
      ensures if c then forall free :: Paced(cancelled, code, old(Here()), Here(), Err(Cancelled), free)
              else Paced(cancelled, code, old(Here()), Here(), Ok(()), -1)
    {
      hide *;
      HereIs();
      PacedPoll(cancelled, code, Here());
      c := cancelled(polls);
      polls := polls + 1;
      HereIs();
    }

    method StatObject(path: bytes) returns (r: Result<Kind>)
      modifies `calls, `made, `failures
      ensures calls == old(calls) + [Stat(Split(path))] && Here().deletes == old(Here()).deletes
      ensures r.Ok? ==> Split(path) in tree && r.value == tree[Split(path)]
      ensures Reliable() && Split(path) in tree ==> r.Ok?
      ensures Paced(cancelled, code, old(Here()), Here(), (if r.Ok? then Ok(()) else Err(r.code)), 1)
    {
      hide Paced, Stats, Deletes, Here;
      HereIs();
      ghost var was := Here();
      OneMoreCall(calls, Stat(Split(path)));
      calls := calls + [Stat(Split(path))];
      r := if reports(made) && Split(path) in tree then Ok(tree[Split(path)]) else Err(code(made));
      made := made + 1;
      if r.Err? { failures := failures + 1; }
      HereIs();
      PacedCall(cancelled, code, was, Here(), Stat(Split(path)), r.Ok?);
    }

    /** What the server answers to a listing; it may hold dot entries. */
    method ServerListing(path: bytes) returns (r: Result<seq<Entry>>)
      requires WellFormed(tree)
      modifies `calls, `made, `failures
      ensures calls == old(calls) + [List(Split(path))]
      ensures r.Ok? ==> IsListing(tree, Split(path), r.value)
      ensures Reliable() && Split(path) in tree && tree[Split(path)].IsDirectory() ==> r.Ok?
      ensures Paced(cancelled, code, old(Here()), Here(), (if r.Ok? then Ok(()) else Err(r.code)), 0)
    {
      hide IsListing, WellFormed, Paced, Stats, Deletes, Here;
      HereIs();
      var p := Split(path);
      ghost var was := Here();
      OneMoreCall(calls, List(p));
      calls := calls + [List(p)];
      var answered, withDots := reports(made), dots(made);
      made := made + 1;
      var ok := answered && p in tree && tree[p].IsDirectory();
      if !ok { failures := failures + 1; }
      HereIs();
      PacedCall(cancelled, code, was, Here(), List(p), ok);
      if !ok { return Err(code(made - 1)); }
      var entries := Children(p);
      var special := [Entry([DOT], true, false), Entry([DOT, DOT], true, false)];
      if withDots { ListedWithDots(tree, p, entries, special); }
      r := Ok(if withDots then special + entries else entries);
    }

    /** The children of `p`, in any order. */
    method Children(p: Path) returns (entries: seq<Entry>)
      ensures IsListing(tree, p, entries) && forall e | e in entries :: p + [e.name] in tree
    {
      hide ListedSoFar, IsListing;
      entries := [];
      var rest := set q | q in tree && |q| == |p| + 1 && p <= q;
      ListedStart(tree, p, rest);
      while rest != {}
        invariant forall q | q in rest :: q in tree && |q| == |p| + 1 && p <= q
        invariant ListedSoFar(tree, p, entries, rest)
        decreases |rest|
      {
        var q :| q in rest;
        ListedMore(tree, p, entries, rest, q);
        entries := entries + [EntryFor(q[|p|], tree[q])];
        rest := rest - {q};
      }
      ListedIsListing(tree, p, entries);
      AllInTree(tree, p, entries);
    }

    /** listDirectory: the server's entries without the dot entries. */
    method ListDirectory(path: bytes) returns (r: Result<seq<Entry>>)
      requires WellFormed(tree)
      modifies `calls, `made, `failures
      ensures calls == old(calls) + [List(Split(path))]
      ensures r.Ok? ==> IsListing(tree, Split(path), r.value) && forall e | e in r.value :: !IsDotEntry(e.name)
      ensures Reliable() && Split(path) in tree && tree[Split(path)].IsDirectory() ==> r.Ok?
      ensures Paced(cancelled, code, old(Here()), Here(), (if r.Ok? then Ok(()) else Err(r.code)), 0)
    {
      hide *;
      var listed := ServerListing(path);
      if listed.Err? { return listed; }
      var all := listed.value;
      var entries: seq<Entry> := [];
      var i := 0;
      NothingKept(all);
      while i < |all|
        invariant 0 <= i <= |all| && Kept(all, i, entries)
        invariant Paced(cancelled, code, old(Here()), Here(), Ok(()), 0) && calls == old(calls) + [List(Split(path))]
      {
        ListedOnce(tree, Split(path), all, i);
        KeepNext(all, i, entries);
        if !IsDotEntry(all[i].name) {
          entries := entries + [all[i]];
        }
        i := i + 1;
      }
      KeptListing(tree, Split(path), all, entries);
      r := Ok(entries);
    }

    /** Removes the named entry; a directory must be empty, a link goes with what
        was visible through it. The share root is never removed. */
    method DeleteObject(path: bytes, directory: bool) returns (r: Result<()>)
      modifies `calls, `made, `failures, `tree
      ensures calls == old(calls) + [Delete(Split(path))]
      ensures tree == old(tree) || tree == Without(old(tree), Split(path))
      ensures r.Ok? ==> tree == Without(old(tree), Split(path)) && Split(path) in old(tree) && Split(path) != []
      ensures Split(path) in old(tree) && tree != old(tree) && old(tree)[Split(path)].Directory? ==>
        Below(old(tree), Split(path)) == {Split(path)}
      ensures Split(path) == [] ==> r.Err? && tree == old(tree)
      ensures Paced(cancelled, code, old(Here()), Here(), r, 1)
      ensures (Reliable() && Split(path) in old(tree) && Split(path) != []
               && old(tree)[Split(path)].IsDirectory() == directory
               && (old(tree)[Split(path)].Directory? ==> Below(old(tree), Split(path)) == {Split(path)})) ==> r.Ok?
    {
      hide Paced, Stats, Deletes, Here;
      var p := Split(path);
      HereIs();
      ghost var was := Here();
      OneMoreCall(calls, Delete(p));
      calls := calls + [Delete(p)];
      var obeyed, reported := obeys(made), reports(made);
      made := made + 1;
      assert Below(tree, p) == {p} ==> forall q | q in tree && p <= q :: q in Below(tree, p);
      var empty := forall q | q in tree && p <= q :: q == p;
      if obeyed && p in tree && p != [] && tree[p].IsDirectory() == directory && (tree[p].Directory? ==> empty) {
        tree := map q | q in tree && !(p <= q) :: tree[q];
        r := if reported then Ok(()) else Err(code(made - 1));
      } else {
        r := Err(code(made - 1));
      }
      if r.Err? { failures := failures + 1; }
      HereIs();
      PacedCall(cancelled, code, was, Here(), Delete(p), r.Ok?);
    }

    /** One listed entry: a directory goes recursively, anything else with one delete.
        `whole` is the tree the listing was taken of, `names` the entries removed since. */
    method RemoveEntry(path: bytes, entry: Entry, ghost whole: Tree, ghost names: set<bytes>) returns (r: Result<()>)
      requires WellFormed(whole) && WellFormed(tree) && GoodName(entry.name) && entry.name !in names
      requires tree == WithoutChildren(whole, Split(path), names)
      requires Split(path) + [entry.name] in whole && entry == EntryFor(entry.name, whole[Split(path) + [entry.name]])
      modifies this
      ensures Paced(cancelled, code, old(Here()), Here(), r, 1) && polls == Here().polls >= old(polls)
      ensures WellFormed(tree) && |calls| >= |old(calls)|
      ensures r.Ok? ==> tree == WithoutChildren(whole, Split(path), names + {entry.name})
      ensures Reliable() && r.Err? ==> polls > old(polls) && cancelled(polls - 1)
      ensures OnlyChildrenMissing(whole, tree, Split(path), names + {entry.name})
      ensures AddedUnder(whole, Split(path), old(calls), calls)
      decreases Below(tree, Split(path) + [entry.name]), 5
    {
      hide *;
      HereIs();
      ghost var p := Split(path);
      var child := Join(path, entry.name);
      JoinAppends(path, entry.name);
      AddedNothing(tree, p + [entry.name], calls);
      UntouchedChild(whole, p, names, entry.name, p + [entry.name]);
      KindOfEntry(entry.name, whole[p + [entry.name]]);
      if entry.directory && !entry.reparse {
        r := DeleteTree(child);
      } else {
        WithoutWellFormed(tree, p + [entry.name]);
        r := DeleteObject(child, entry.directory);
        AddedOne(old(tree), p + [entry.name], old(calls), old(calls), Delete(p + [entry.name]));
        RemovedOrNot(old(tree), tree, p + [entry.name]);
      }
      HereIs();
      PacedBounds(cancelled, code, old(Here()), Here(), r, 1);
      RemoveChild(whole, p, names, entry.name);
      FailedChild(whole, tree, p, names, entry.name);
      StayUnderParent(whole, p, names, entry.name, old(calls), calls);
    }

    /** The loop of deleteTreeInternal. The listing holds no dot entries, so the
        second dot check of the original never fires and is not repeated. */
    method DeleteListed(path: bytes, entries: seq<Entry>) returns (r: Result<()>)
      requires WellFormed(tree) && Split(path) in tree
      requires IsListing(tree, Split(path), entries) && forall e | e in entries :: !IsDotEntry(e.name)
      modifies this
      ensures Paced(cancelled, code, old(Here()), Here(), r, 0) && polls == Here().polls >= old(polls)
      ensures WellFormed(tree) && |calls| >= |old(calls)|
      ensures r.Ok? ==> tree == WithoutChildren(old(tree), Split(path), NamesOf(entries))
      ensures Reliable() && r.Err? ==> polls > old(polls) && cancelled(polls - 1)
      ensures OnlyBelowMissing(old(tree), tree, Split(path))
      ensures AddedUnder(old(tree), Split(path), old(calls), calls)
      decreases Below(tree, Split(path)), 0
    {
      hide *;
      ghost var p := Split(path);
      ghost var names: set<bytes> := {};
      WithoutNothing(tree, p);
      NoNames(entries);
      AddedNothing(tree, p, calls);
      RemovedOrNot(tree, tree, p);
      ghost var was := Here();
      HereIs();
      PacedNothing(cancelled, code, was);
      var i := 0;
      while i < |entries|
        invariant 0 <= i <= |entries| && names == NamesOf(entries[..i])
        invariant WellFormed(tree) && tree == WithoutChildren(old(tree), p, names)
        invariant OnlyBelowMissing(old(tree), tree, p) && |calls| >= |old(calls)|
        invariant Paced(cancelled, code, was, Here(), Ok(()), 0) && polls == Here().polls >= was.polls
        invariant AddedUnder(old(tree), p, old(calls), calls)
      {
        var entry := entries[i];
        assert entry in entries;
        ghost var before := Here();
        var stop := IsCancelled();
        ghost var polled := Here();
        HereIs();
        if stop {
          PacedThen(cancelled, code, was, before, polled, Err(Cancelled), 0, 0);
          return Err(Cancelled);
        }
        PacedThen(cancelled, code, was, before, polled, Ok(()), 0, -1);
        ListedEntry(old(tree), p, entries, i);
        ChildSubtreeSmaller(old(tree), p, names, entry.name);
        ghost var callsBefore := calls;
        r := RemoveEntry(path, entry, old(tree), names);
        PacedThen(cancelled, code, was, polled, Here(), r, -1, 1);
        ChildrenAreBelow(old(tree), tree, p, names + {entry.name});
        AddedMore(old(tree), p, old(calls), callsBefore, calls);
        if r.Err? { return; }
        Nothing(r);
        names := names + {entry.name};
        i := i + 1;
      }
      assert entries[..i] == entries;
      r := Ok(());
    }

    /** deleteTreeInternal from its listing to the end of its loop; `names` are those of
        the children. */
    method EmptyDirectory(path: bytes) returns (r: Result<()>, ghost names: set<bytes>)
      requires WellFormed(tree) && Split(path) in tree && tree[Split(path)].Directory?
      modifies this
      ensures Paced(cancelled, code, old(Here()), Here(), r, 0) && polls == Here().polls >= old(polls)
      ensures WellFormed(tree) && |calls| >= |old(calls)|
      ensures Reliable() && r.Err? ==> polls > old(polls) && cancelled(polls - 1)
      ensures r.Ok? ==> forall n | Split(path) + [n] in old(tree) :: n in names
      ensures r.Ok? ==> tree == WithoutChildren(old(tree), Split(path), names)
      ensures OnlyBelowMissing(old(tree), tree, Split(path))
      ensures AddedInside(old(tree), Split(path), old(calls), calls)
      decreases Below(tree, Split(path)), 1
    {
      hide *;
      ghost var p := Split(path);
      ghost var was := Here();
      KindOfEntry([], tree[p]);
      RemovedOrNot(tree, tree, p);
      AddedNothing(tree, p, calls);
      names := {};
      var listing := ListDirectory(path);
      HereIs();
      ghost var listed := Here();
      PacedBounds(cancelled, code, was, listed, if listing.Ok? then Ok(()) else Err(listing.code), 0);
      AddedOne(tree, p, old(calls), old(calls), List(p));
      if listing.Err? { return Err(listing.code), names; }
      names := NamesOf(listing.value);
      ListedAll(tree, p, listing.value);
      ghost var callsListed := calls;
      r := DeleteListed(path, listing.value);
      PacedThen(cancelled, code, was, listed, Here(), r, 0, 0);
      AddedMore(old(tree), p, old(calls), callsListed, calls);
    }

    /** deleteTreeInternal for a directory: its children, then the directory itself. */
    method DeleteDirectory(path: bytes) returns (r: Result<()>)
      requires WellFormed(tree) && Split(path) in tree && tree[Split(path)].Directory?
      modifies this
      ensures Paced(cancelled, code, old(Here()), Here(), r, 1) && polls == Here().polls >= old(polls)
      ensures WellFormed(tree) && |calls| >= |old(calls)|
      ensures Reliable() && Split(path) != [] && r.Err? ==> polls > old(polls) && cancelled(polls - 1)
      ensures Split(path) == [] ==> r.Err?
      ensures Reliable() && Split(path) == [] ==>
        tree == map[[] := Directory] || (polls > old(polls) && cancelled(polls - 1))
      ensures r.Ok? ==> tree == Without(old(tree), Split(path))
      ensures OnlyBelowMissing(old(tree), tree, Split(path))
      ensures AddedInside(old(tree), Split(path), old(calls), calls)
      decreases Below(tree, Split(path)), 2
    {
      hide *;
      ghost var p := Split(path);
      ghost var was, whole := Here(), tree;
      KindOfEntry([], tree[p]);
      ghost var names;
      r, names := EmptyDirectory(path);
      ghost var emptied := Here();
      if r.Err? {
        PacedFailure(cancelled, code, was, emptied, r.code, 0);
        return;
      }
      Nothing(r);
      WithoutWellFormed(whole, p);
      RemoveEmptied(whole, p, names);
      KeptItself(whole, p, names);
      if p == [] { OnlyRootLeft(whole, tree, names); }
      ghost var before := calls;
      r := DeleteObject(path, true);
      HereIs();
      PacedThen(cancelled, code, was, emptied, Here(), r, 0, 1);
      AddedOne(whole, p, old(calls), before, Delete(p));
      RemovedOrNot(whole, Without(whole, p), p);
    }

    /** deleteTreeInternal once it knows the kind: links and files go with one delete. */
    method DeleteNode(path: bytes, kind: Kind) returns (r: Result<()>)
      requires WellFormed(tree) && Split(path) in tree && tree[Split(path)] == kind
      modifies this
      ensures Paced(cancelled, code, old(Here()), Here(), r, 1) && polls == Here().polls >= old(polls)
      ensures Here().deletes - old(Here()).deletes <= polls - old(polls) + 1
      ensures WellFormed(tree) && |calls| >= |old(calls)|
      ensures Reliable() && Split(path) != [] && r.Err? ==> polls > old(polls) && cancelled(polls - 1)
      ensures Split(path) == [] ==> r.Err?
      ensures Reliable() && Split(path) == [] && kind.Directory? ==>
        tree == map[[] := Directory] || (polls > old(polls) && cancelled(polls - 1))
      ensures r.Ok? ==> tree == Without(old(tree), Split(path))
      ensures OnlyBelowMissing(old(tree), tree, Split(path))
      ensures AddedInside(old(tree), Split(path), old(calls), calls)
      decreases Below(tree, Split(path)), 3
    {
      hide *;
      ghost var p := Split(path);
      ghost var was, whole, before := Here(), tree, calls;
      HereIs();
      WithoutWellFormed(tree, p);
      KindOfEntry([], kind);
      if !kind.IsDirectory() || kind.IsReparse() {
        AddedNothing(tree, p, calls);
        r := DeleteObject(path, kind.IsDirectory());
        HereIs();
        RemovedOrNot(whole, tree, p);
        AddedOne(whole, p, before, before, Delete(p));
      } else {
        r := DeleteDirectory(path);
      }
      PacedBounds(cancelled, code, was, Here(), r, 1);
    }

    /** deleteTreeInternal */
    method DeleteTree(path: bytes) returns (r: Result<()>)
      requires WellFormed(tree)
      modifies this
      ensures path != [] ==> Paced(cancelled, code, old(Here()), Here(), r, 1)
      ensures path == [] ==> Here() == old(Here())
      ensures polls == Here().polls >= old(polls)
      ensures Here().deletes - old(Here()).deletes <= polls - old(polls)
      ensures WellFormed(tree) && |calls| >= |old(calls)|
      ensures path == [] <==> r == Err(InvalidPath) && calls == old(calls)
      ensures path == [] ==> tree == old(tree)
      ensures Reliable() && Split(path) in old(tree) && Split(path) != [] && r.Err? ==>
        polls > old(polls) && cancelled(polls - 1)
      ensures Split(path) == [] ==> r.Err?
      ensures Reliable() && path != [] && Split(path) == [] && [] in old(tree) && old(tree)[[]].Directory? ==>
        tree == map[[] := Directory] || (polls > old(polls) && cancelled(polls - 1))
      ensures r.Ok? ==> Split(path) in old(tree) && Split(path) != [] && tree == Without(old(tree), Split(path))
      ensures OnlyBelowMissing(old(tree), tree, Split(path))
      ensures AddedInside(old(tree), Split(path), old(calls), calls)
      decreases Below(tree, Split(path)), 4
    {
      hide *;
      ghost var p := Split(path);
      RemovedOrNot(tree, tree, p);
      AddedNothing(tree, p, calls);
      NamesRoot(path);
      ghost var was := Here();
      HereIs();
      if path == [] { return Err(InvalidPath); }
      var stop := IsCancelled();
      ghost var polled := Here();
      HereIs();
      PacedBounds(cancelled, code, was, polled, if stop then Err(Cancelled) else Ok(()), if stop then 1 else -1);
      if stop { return Err(Cancelled); }
      var stat := StatObject(path);
      HereIs();
      ghost var known := Here();
      PacedThen(cancelled, code, was, polled, known, if stat.Ok? then Ok(()) else Err(stat.code), -1, 1);
      AddedOne(tree, p, old(calls), old(calls), Stat(p));
      if stat.Err? {
        PacedFailure(cancelled, code, was, known, stat.code, 0);
        return Err(stat.code);
      }
      ghost var callsStat := calls;
      r := DeleteNode(path, stat.value);
      PacedThen(cancelled, code, was, known, Here(), r, 0, 1);
      AddedBoth(old(tree), p, old(calls), callsStat, calls);
    }

    /** deleteWildcard */
    method DeleteWildcard(parentPath: bytes, pattern: bytes) returns (r: Result<()>)
      requires WellFormed(tree)
      modifies this
      ensures pattern != [] ==> Paced(cancelled, code, old(Here()), Here(), r, -1)
      ensures pattern == [] ==> Here() == old(Here())
      ensures polls == Here().polls >= old(polls)
      ensures WellFormed(tree) && |calls| >= |old(calls)|
      ensures pattern == [] <==> r == Err(InvalidPath) && calls == old(calls)
      ensures (Reliable() && pattern != [] && Split(parentPath) in old(tree)
               && old(tree)[Split(parentPath)].IsDirectory() && r.Err?) ==> polls > old(polls) && cancelled(polls - 1)
      ensures r.Ok? ==>
        tree == WithoutChildren(old(tree), Split(parentPath), Selected(old(tree), Split(parentPath), pattern))
      ensures OnlyChildrenMissing(old(tree), tree, Split(parentPath), Selected(old(tree), Split(parentPath), pattern))
      ensures calls == old(calls)
              || AddedUnder(old(tree), Split(parentPath), old(calls) + [List(Split(parentPath))], calls)
    {
      hide *;
      ghost var p := Split(parentPath);
      ghost var selected := Selected(tree, p, pattern);
      NothingMissing(tree, p, selected);
      ghost var was := Here();
      HereIs();
      if pattern == [] { return Err(InvalidPath); }
      var stop := IsCancelled();
      ghost var polled := Here();
      HereIs();
      if stop { return Err(Cancelled); }
      var listing := ListDirectory(parentPath);
      ghost var listed := Here();
      HereIs();
      PacedThen(cancelled, code, was, polled, listed, if listing.Ok? then Ok(()) else Err(listing.code), -1, 0);
      AddedNothing(tree, p, calls);
      if listing.Err? { return Err(listing.code); }
      r := DeleteMatching(parentPath, pattern, listing.value);
      PacedThen(cancelled, code, was, listed, Here(), r, -1, 0);
    }

    method DeleteMatching(parentPath: bytes, pattern: bytes, entries: seq<Entry>) returns (r: Result<()>)
      requires WellFormed(tree)
      requires IsListing(tree, Split(parentPath), entries) && forall e | e in entries :: !IsDotEntry(e.name)
      modifies this
      ensures Paced(cancelled, code, old(Here()), Here(), r, 0) && polls == Here().polls >= old(polls)
      ensures WellFormed(tree) && |calls| >= |old(calls)|
      ensures Reliable() && r.Err? ==> polls > old(polls) && cancelled(polls - 1)
      ensures r.Ok? ==>
        tree == WithoutChildren(old(tree), Split(parentPath), Selected(old(tree), Split(parentPath), pattern))
      ensures OnlyChildrenMissing(old(tree), tree, Split(parentPath), Selected(old(tree), Split(parentPath), pattern))
      ensures AddedUnder(old(tree), Split(parentPath), old(calls), calls)
    {
      hide *;
      ghost var p := Split(parentPath);
      ghost var selected := Selected(tree, p, pattern);
      ghost var names: set<bytes> := {};
      NothingMissing(tree, p, selected);
      WithoutNothing(tree, p);
      NoneMatching(entries, pattern);
      AddedNothing(tree, p, calls);
      ghost var was := Here();
      HereIs();
      PacedNothing(cancelled, code, was);
      var i := 0;
      while i < |entries|
        invariant 0 <= i <= |entries| && names == MatchingNames(entries[..i], pattern) && names <= selected
        invariant WellFormed(tree) && tree == WithoutChildren(old(tree), p, names)
        invariant OnlyChildrenMissing(old(tree), tree, p, selected) && |calls| >= |old(calls)|
        invariant Paced(cancelled, code, was, Here(), Ok(()), 0) && polls == Here().polls >= was.polls
        invariant AddedUnder(old(tree), p, old(calls), calls)
      {
        var entry := entries[i];
        assert entry in entries;
        ListedEntry(old(tree), p, entries, i);
        MatchingGrow(entries, i, pattern);
        if Wildcard.WildcardMatches(pattern, entry.name) {
          ghost var before := Here();
          var stop := IsCancelled();
          ghost var polled := Here();
          HereIs();
          if stop {
            PacedThen(cancelled, code, was, before, polled, Err(Cancelled), 0, 0);
            return Err(Cancelled);
          }
          PacedThen(cancelled, code, was, before, polled, Ok(()), 0, -1);
          NotYetMatched(entries, i, pattern);
          SelectedChild(old(tree), p, pattern, entry.name);
          ghost var callsBefore := calls;
          r := RemoveEntry(parentPath, entry, old(tree), names);
          PacedThen(cancelled, code, was, polled, Here(), r, -1, 1);
          MissingMore(old(tree), tree, p, names + {entry.name}, selected);
          AddedMore(old(tree), p, old(calls), callsBefore, calls);
          if r.Err? { return; }
          Nothing(r);
          names := names + {entry.name};
        }
        i := i + 1;
      }
      assert entries[..i] == entries;
      AllSelected(old(tree), p, entries, pattern);
      r := Ok(());
    }
  }

  /** Paths of separators only name the root of the share. On a reliable server its
      content is kept exactly if the path is empty, or there is no content. */
  method DeleteRoot(share: Share, path: bytes) returns (r: Result<()>)
    requires WellFormed(share.tree) && share.Reliable() && share.NeverCancelled()
    requires forall b | b in path :: b == 0x5C || b == 0x2F
    requires [] in share.tree && share.tree[[]].Directory?
    modifies share
    ensures r.Err? && share.tree == if path == [] then old(share.tree) else map[[] := Directory]
    ensures share.tree == old(share.tree) <==> path == [] || old(share.tree).Keys == {[]}
  {
    NamesRoot(path);
    ghost var before := share.tree;
    r := share.DeleteTree(path);
    if before.Keys == {[]} { assert before == map[[] := Directory]; }
  }

  /** The shortest such path, a single backslash: the guard lets it pass, the one file
      of the share is gone, and only the delete of the root itself is refused. */
  method BackslashEmptiesShare() returns (share: Share, r: Result<()>)
    ensures r.Err? && share.tree == map[[] := Directory]
  {
    var file: bytes := [0x61];
    var tree: Tree := map[[] := Directory, [file] := File];
    share := new Share(n => false, n => true, n => true, n => false, n => PermissionDenied, tree);
    assert [file][..0] == [];
    assert GoodName(file);
    r := share.DeleteTree([BACKSLASH]);
    NamesRoot([BACKSLASH]);
  }

  /** The error code alone does not tell the guard: a server's answer can be read as
      the same code, here for a path that does not exist. */
  method ServerSaysInvalidPath() returns (share: Share, r: Result<()>)
    ensures r == Err(InvalidPath) && share.calls != []
  {
    share := new Share(n => false, n => true, n => true, n => false, n => InvalidPath, map[]);
    r := share.DeleteTree([0x61]);
  }

  /** Names of the children a wildcard delete is about. */
  ghost function Selected(tree: Tree, p: Path, pattern: bytes): set<bytes> {
    set q | q in tree && |q| == |p| + 1 && p <= q && Wildcard.WildcardMatches(pattern, q[|p|]) :: q[|p|]
  }

  /** Only children the pattern means are selected, and all of these whose names hold
      no star. */
  lemma SelectedMeaning(tree: Tree, p: Path, pattern: bytes, name: bytes)
    ensures name in Selected(tree, p, pattern) ==> p + [name] in tree && Wildcard.Matches(pattern, name)
    ensures Wildcard.StarFree(name) ==>
      (name in Selected(tree, p, pattern) <==> p + [name] in tree && Wildcard.Matches(pattern, name))
  {
    hide Wildcard.WildcardMatches, Wildcard.Matches, Wildcard.StarFree;
    if name in Selected(tree, p, pattern) {
      var q :| q in tree && |q| == |p| + 1 && p <= q && Wildcard.WildcardMatches(pattern, q[|p|]) && q[|p|] == name;
      assert q == p + [name];
      Wildcard.MatcherSound(pattern, name);
    }
    if Wildcard.StarFree(name) && p + [name] in tree && Wildcard.Matches(pattern, name) {
      Wildcard.MatcherCorrect(pattern, name);
      SelectedChild(tree, p, pattern, name);
    }
  }

  ghost function MatchingNames(entries: seq<Entry>, pattern: bytes): set<bytes> {
    set e | e in entries && Wildcard.WildcardMatches(pattern, e.name) :: e.name
  }

  lemma NothingMissing(tree: Tree, p: Path, names: set<bytes>)
    ensures OnlyChildrenMissing(tree, tree, p, names)
  {
  }

  lemma MissingMore(tree: Tree, after: Tree, p: Path, names: set<bytes>, more: set<bytes>)
    requires OnlyChildrenMissing(tree, after, p, names) && names <= more
    ensures OnlyChildrenMissing(tree, after, p, more)
  {
  }

  lemma NoneMatching(entries: seq<Entry>, pattern: bytes)
    ensures MatchingNames(entries[..0], pattern) == {}
  {
  }

  lemma MatchingGrow(entries: seq<Entry>, i: nat, pattern: bytes)
    requires i < |entries|
    ensures MatchingNames(entries[..i + 1], pattern) == MatchingNames(entries[..i], pattern)
            + if Wildcard.WildcardMatches(pattern, entries[i].name) then {entries[i].name} else {}
  {
    assert entries[..i + 1] == entries[..i] + [entries[i]];
  }

  lemma NotYetMatched(entries: seq<Entry>, i: nat, pattern: bytes)
    requires i < |entries| && entries[i].name !in NamesOf(entries[..i])
    ensures entries[i].name !in MatchingNames(entries[..i], pattern)
  {
  }

  lemma SelectedChild(tree: Tree, p: Path, pattern: bytes, name: bytes)
    requires p + [name] in tree && Wildcard.WildcardMatches(pattern, name)
    ensures name in Selected(tree, p, pattern)
  {
    assert (p + [name])[|p|] == name;
  }

  lemma AllSelected(tree: Tree, p: Path, entries: seq<Entry>, pattern: bytes)
    requires IsListing(tree, p, entries) && forall e | e in entries :: !IsDotEntry(e.name)
    ensures MatchingNames(entries, pattern) == Selected(tree, p, pattern)
  {
    hide Wildcard.WildcardMatches;
    forall n | n in MatchingNames(entries, pattern) ensures n in Selected(tree, p, pattern) {
      SelectedChild(tree, p, pattern, n);
    }
    forall n | n in Selected(tree, p, pattern) ensures n in MatchingNames(entries, pattern) {
      var q :| q in tree && |q| == |p| + 1 && p <= q && Wildcard.WildcardMatches(pattern, q[|p|]) && q[|p|] == n;
      var e :| e in entries && e.name == q[|p|];
    }
  }
}
