/** Wire paths and the component lists a server reads out of them. */
module RemotePath {
  import opened Bytes

  type Path = seq<bytes>

  const BACKSLASH: byte := 0x5C
  const SLASH: byte := 0x2F
  const DOT: byte := 0x2E

  predicate IsSeparator(b: byte) { b == BACKSLASH || b == SLASH }

  predicate IsDotEntry(name: bytes) { name == [DOT] || name == [DOT, DOT] }

  /** A name a directory entry can have. */
  predicate GoodName(name: bytes) {
    name != [] && !IsDotEntry(name) && forall i | 0 <= i < |name| :: !IsSeparator(name[i])
  }

  /** joinRemotePath */
  function Join(parent: bytes, child: bytes): bytes {
    if parent == [] then child
    else if IsSeparator(parent[|parent| - 1]) then parent + child
    else parent + [BACKSLASH] + child
  }

  function Component(current: bytes): Path {
    if current == [] then [] else [current]
  }

  function SplitFrom(current: bytes, rest: bytes): Path
    decreases |rest|
  {
    if rest == [] then Component(current)
    else if IsSeparator(rest[0]) then Component(current) + SplitFrom([], rest[1..])
    else SplitFrom(current + [rest[0]], rest[1..])
  }

  /** Components of a wire path; empty ones do not count. */
  function Split(path: bytes): Path { SplitFrom([], path) }

  lemma {:induction false} SplitAtSeparator(current: bytes, a: bytes, separator: byte, b: bytes)
    requires IsSeparator(separator)
    ensures SplitFrom(current, a + [separator] + b) == SplitFrom(current, a) + SplitFrom([], b)
    decreases |a|
  {
    var whole := a + [separator] + b;
    if a == [] {
      assert whole[1..] == b;
    } else {
      assert whole[1..] == a[1..] + [separator] + b;
      if IsSeparator(a[0]) {
        SplitAtSeparator([], a[1..], separator, b);
        assert Component(current) + (SplitFrom([], a[1..]) + SplitFrom([], b))
            == Component(current) + SplitFrom([], a[1..]) + SplitFrom([], b);
      } else {
        SplitAtSeparator(current + [a[0]], a[1..], separator, b);
      }
    }
  }

  lemma {:induction false} SplitName(current: bytes, name: bytes)
    requires forall i | 0 <= i < |name| :: !IsSeparator(name[i])
    ensures SplitFrom(current, name) == Component(current + name)
    decreases |name|
  {
    if name == [] {
      assert current + name == current;
    } else {
      SplitName(current + [name[0]], name[1..]);
      assert current + [name[0]] + name[1..] == current + name;
    }
  }

  lemma SplitFromNothing()
    ensures SplitFrom([], []) == []
  {
  }

  /** Joining a name appends one component. */
  lemma JoinAppends(parent: bytes, name: bytes)
    requires GoodName(name)
    ensures Split(Join(parent, name)) == Split(parent) + [name] && Join(parent, name) != []
  {
    hide SplitFrom;
    SplitFromNothing();
    SplitName([], name);
    assert [] + name == name;
    if parent == [] {
    } else if IsSeparator(parent[|parent| - 1]) {
      var front, last := parent[..|parent| - 1], parent[|parent| - 1];
      assert parent == front + [last] + [];
      SplitAtSeparator([], front, last, []);
      SplitAtSeparator([], front, last, name);
      assert front + [last] + name == parent + name;
    } else {
      SplitAtSeparator([], parent, BACKSLASH, name);
    }
  }

  /** The paths that name the root are those of separators only. */
  lemma NamesRoot(path: bytes)
    ensures Split(path) == [] <==> forall b | b in path :: b == 0x5C || b == 0x2F
  {
    SplitsToNothing([], path);
  }

  /** Of paths without a leading separator, which is what the client passes on, only
      the empty one names the root. */
  lemma StrippedNamesRoot(path: bytes)
    requires path != [] ==> path[0] != 0x5C && path[0] != 0x2F
    ensures Split(path) == [] <==> path == []
  {
    NamesRoot(path);
    assert path != [] ==> path[0] in path;
  }

  lemma {:induction false} SplitsToNothing(current: bytes, rest: bytes)
    ensures SplitFrom(current, rest) == [] <==> current == [] && forall b | b in rest :: IsSeparator(b)
    decreases |rest|
  {
    if rest != [] {
      assert rest == [rest[0]] + rest[1..];
      SplitsToNothing([], rest[1..]);
      SplitsToNothing(current + [rest[0]], rest[1..]);
    }
  }

  /** Joining, byte by byte: a backslash comes between unless the parent is empty or ends
      in a separator of either kind. */
  lemma JoinBytes(parent: bytes, child: bytes)
    ensures Join(parent, child)
         == if parent == [] || parent[|parent| - 1] == 0x5C || parent[|parent| - 1] == 0x2F then parent + child
            else parent + [0x5C] + child
  {
    assert [] + child == child;
  }

  /** The components of a path are what lies between its separators: none is empty or
      holds a separator, and a path without separators is one component. */
  lemma {:induction false} Components(current: bytes, rest: bytes)
    requires 0x5C !in current && 0x2F !in current
    ensures forall name | name in SplitFrom(current, rest) :: name != [] && 0x5C !in name && 0x2F !in name
    decreases |rest|
  {
    if rest != [] {
      if IsSeparator(rest[0]) {
        Components([], rest[1..]);
      } else {
        Components(current + [rest[0]], rest[1..]);
      }
    }
  }

  /** The names an entry can have: any but the empty one, the two dot entries and those
      that hold a separator. */
  lemma GoodNames(name: bytes)
    ensures GoodName(name) <==>
            name != [] && name != [0x2E] && name != [0x2E, 0x2E] && 0x5C !in name && 0x2F !in name
  {
  }
}
