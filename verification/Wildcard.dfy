/** The wildcard matcher behind deleteWildcard: `*` stands for any run of bytes,
    `?` for one byte, letters match in either ASCII case. */
module Wildcard {
  import opened Bytes

  const STAR: byte := 0x2A
  const QUESTION: byte := 0x3F

  function LowerAscii(b: byte): byte {
    if 0x41 <= b <= 0x5A then b + 0x20 else b
  }

  predicate SameLetter(a: byte, b: byte) { LowerAscii(a) == LowerAscii(b) }

  /** What a pattern means. */
  predicate Matches(pattern: bytes, text: bytes)
    decreases |pattern|, |text|
  {
    if pattern == [] then text == []
    else if pattern[0] == STAR then
      Matches(pattern[1..], text) || (text != [] && Matches(pattern, text[1..]))
    else text != [] && (pattern[0] == QUESTION || SameLetter(pattern[0], text[0]))
         && Matches(pattern[1..], text[1..])
  }

  // ------------------------------------------------------- the iterative matcher

  /** Indices of the loop; `star` is the last star met, if any. */
  datatype Cursor = Cursor(p: nat, t: nat, star: int, retry: nat)

  predicate Reachable(pattern: bytes, text: bytes, c: Cursor) {
    && c.p <= |pattern| && c.t <= |text| && c.retry <= c.t
    && -1 <= c.star < |pattern|
    && (c.star >= 0 ==> c.star < c.p)
  }

  predicate Literal(pattern: bytes, text: bytes, c: Cursor) {
    c.p < |pattern| && c.t < |text| && (pattern[c.p] == QUESTION || SameLetter(pattern[c.p], text[c.t]))
  }

  predicate AllStars(pattern: bytes, from: nat) {
    forall i | from <= i < |pattern| :: pattern[i] == STAR
  }

  /** The answer the loop reaches from a cursor. */
  predicate Scan(pattern: bytes, text: bytes, c: Cursor)
    requires Reachable(pattern, text, c)
    decreases |text| - c.retry, (|pattern| - c.p) + (|text| - c.t)
  {
    if c.t == |text| then AllStars(pattern, c.p)
    else if Literal(pattern, text, c) then
      Scan(pattern, text, c.(p := c.p + 1, t := c.t + 1))
    else if c.p < |pattern| && pattern[c.p] == STAR then
      Scan(pattern, text, Cursor(c.p + 1, c.t, c.p, c.t))
    else if c.star >= 0 then
      Scan(pattern, text, Cursor(c.star + 1, c.retry + 1, c.star, c.retry + 1))
    else false
  }

  predicate WildcardMatches(pattern: bytes, text: bytes) {
    Scan(pattern, text, Cursor(0, 0, -1, 0))
  }

  method WildcardMatchesLoop(pattern: bytes, text: bytes) returns (matched: bool)
    ensures matched == WildcardMatches(pattern, text)
  {
    var p, t, star, retry := 0, 0, -1, 0;
    while t < |text|
      invariant Reachable(pattern, text, Cursor(p, t, star, retry))
      invariant Scan(pattern, text, Cursor(p, t, star, retry)) == WildcardMatches(pattern, text)
      decreases |text| - retry, (|pattern| - p) + (|text| - t)
    {
      if p < |pattern| && (pattern[p] == QUESTION || SameLetter(pattern[p], text[t])) {
        p, t := p + 1, t + 1;
      } else if p < |pattern| && pattern[p] == STAR {
        star, retry := p, t;
        p := p + 1;
      } else if star >= 0 {
        p := star + 1;
        retry := retry + 1;
        t := retry;
      } else {
        return false;
      }
    }
    ghost var from := p;
    while p < |pattern| && pattern[p] == STAR
      invariant from <= p <= |pattern|
      invariant forall i | from <= i < p :: pattern[i] == STAR
    {
      p := p + 1;
    }
    matched := p == |pattern|;
  }

  // ------------------------------------------------------------- properties

  predicate StarFree(b: bytes) { STAR !in b }

  /** `pattern[lo..lo+n]` holds no star and matches `text[at..at+n]` byte by byte. */
  predicate Segment(pattern: bytes, lo: nat, text: bytes, at: nat, n: nat)
    requires lo + n <= |pattern| && at + n <= |text|
  {
    forall i | lo <= i < lo + n :: pattern[i] != STAR
      && (pattern[i] == QUESTION || SameLetter(pattern[i], text[at + (i - lo)]))
  }

  lemma {:induction false} StarMatches(pattern: bytes, text: bytes, s: nat, from: nat, k: nat)
    requires s < |pattern| && pattern[s] == STAR && from <= k <= |text|
    requires Matches(pattern[s + 1..], text[k..])
    ensures Matches(pattern[s..], text[from..])
    decreases k - from
  {
    assert pattern[s..][1..] == pattern[s + 1..];
    if from < k {
      StarMatches(pattern, text, s, from + 1, k);
      assert text[from..][1..] == text[from + 1..];
    }
  }

  lemma {:induction false} StarWitness(pattern: bytes, text: bytes, s: nat, from: nat) returns (k: nat)
    requires s < |pattern| && pattern[s] == STAR && from <= |text| && Matches(pattern[s..], text[from..])
    ensures from <= k <= |text| && Matches(pattern[s + 1..], text[k..])
    decreases |text| - from
  {
    assert pattern[s..][1..] == pattern[s + 1..];
    if Matches(pattern[s + 1..], text[from..]) {
      k := from;
    } else {
      assert text[from..][1..] == text[from + 1..];
      k := StarWitness(pattern, text, s, from + 1);
    }
  }

  /** A matched segment can be put in front of a match. */
  lemma {:induction false} SegmentThen(pattern: bytes, lo: nat, text: bytes, at: nat, n: nat)
    requires lo + n <= |pattern| && at + n <= |text| && Segment(pattern, lo, text, at, n)
    ensures Matches(pattern[lo..], text[at..]) <==> Matches(pattern[lo + n..], text[at + n..])
    decreases n
  {
    if n > 0 {
      SegmentThen(pattern, lo + 1, text, at + 1, n - 1);
      assert pattern[lo] != STAR;
      assert pattern[lo..][1..] == pattern[lo + 1..] && text[at..][1..] == text[at + 1..];
    }
  }

  /** A star-free run of the pattern consumes as many bytes of a matching text. */
  lemma {:induction false} RunConsumes(pattern: bytes, lo: nat, n: nat, text: bytes, at: nat)
    requires lo + n <= |pattern| && at <= |text| && Matches(pattern[lo..], text[at..])
    requires forall i | lo <= i < lo + n :: pattern[i] != STAR
    ensures at + n <= |text| && Matches(pattern[lo + n..], text[at + n..])
    decreases n
  {
    if n > 0 {
      assert pattern[lo] != STAR;
      assert pattern[lo..][1..] == pattern[lo + 1..] && text[at..][1..] == text[at + 1..];
      RunConsumes(pattern, lo + 1, n - 1, text, at + 1);
    }
  }

  lemma {:induction false} EmptyText(pattern: bytes, from: nat)
    requires from <= |pattern|
    ensures Matches(pattern[from..], []) <==> AllStars(pattern, from)
    decreases |pattern| - from
  {
    if from < |pattern| {
      assert pattern[from..][1..] == pattern[from + 1..];
      EmptyText(pattern, from + 1);
    }
  }

  /** What the cursor has established: the text from `retry` on is still to be
      matched by the pattern from the last star on. */
  predicate Progress(pattern: bytes, text: bytes, c: Cursor) {
    && Reachable(pattern, text, c)
    && (c.star >= 0 ==>
          && pattern[c.star] == STAR && c.p - (c.star + 1) == c.t - c.retry
          && Segment(pattern, c.star + 1, text, c.retry, c.t - c.retry))
  }

  /** The remaining question, read declaratively. */
  predicate Remaining(pattern: bytes, text: bytes, c: Cursor)
    requires Reachable(pattern, text, c)
  {
    if c.star >= 0 then Matches(pattern[c.star..], text[c.retry..]) else Matches(pattern[c.p..], text[c.t..])
  }

  /** Reaching a new star makes the old one irrelevant. */
  lemma NewStar(pattern: bytes, text: bytes, c: Cursor)
    requires Progress(pattern, text, c) && c.star >= 0 && c.p < |pattern| && pattern[c.p] == STAR
    ensures Remaining(pattern, text, c) <==> Matches(pattern[c.p..], text[c.t..])
  {
    hide Matches;
    var lo, n := c.star + 1, c.t - c.retry;
    SegmentThen(pattern, lo, text, c.retry, n);
    if Matches(pattern[c.p..], text[c.t..]) {
      StarMatches(pattern, text, c.star, c.retry, c.retry);
    }
    if Remaining(pattern, text, c) {
      var k := StarWitness(pattern, text, c.star, c.retry);
      RunConsumes(pattern, lo, n, text, k);
      var k' := StarWitness(pattern, text, c.p, k + n);
      StarMatches(pattern, text, c.p, c.t, k');
    }
  }

  /** When the current alignment fails, the last star must absorb one more byte. */
  lemma Backtrack(pattern: bytes, text: bytes, c: Cursor)
    requires Progress(pattern, text, c) && c.star >= 0 && c.t < |text|
    requires !Matches(pattern[c.p..], text[c.t..])
    ensures Remaining(pattern, text, c) <==> Matches(pattern[c.star..], text[c.retry + 1..])
  {
    SegmentThen(pattern, c.star + 1, text, c.retry, c.t - c.retry);
    assert pattern[c.star..][1..] == pattern[c.star + 1..];
    assert text[c.retry..][1..] == text[c.retry + 1..];
  }

  lemma AtTextEnd(pattern: bytes, text: bytes, c: Cursor)
    requires Progress(pattern, text, c) && c.t == |text|
    ensures Remaining(pattern, text, c) <==> AllStars(pattern, c.p)
  {
    hide Matches;
    EmptyText(pattern, c.p);
    assert text[c.t..] == [];
    if c.star >= 0 {
      var lo, n := c.star + 1, c.t - c.retry;
      SegmentThen(pattern, lo, text, c.retry, n);
      if AllStars(pattern, c.p) { StarMatches(pattern, text, c.star, c.retry, c.retry); }
      if Remaining(pattern, text, c) {
        var k := StarWitness(pattern, text, c.star, c.retry);
        RunConsumes(pattern, lo, n, text, k);
      }
    }
  }

  lemma LiteralStep(pattern: bytes, text: bytes, c: Cursor)
    requires Progress(pattern, text, c) && Literal(pattern, text, c) && StarFree(text)
    ensures Progress(pattern, text, c.(p := c.p + 1, t := c.t + 1))
    ensures Remaining(pattern, text, c) <==> Remaining(pattern, text, c.(p := c.p + 1, t := c.t + 1))
  {
    assert text[c.t] in text;
    assert pattern[c.p] != STAR;
    assert pattern[c.p..][1..] == pattern[c.p + 1..] && text[c.t..][1..] == text[c.t + 1..];
  }

  lemma {:induction false} ScanMeaning(pattern: bytes, text: bytes, c: Cursor)
    requires Progress(pattern, text, c) && StarFree(text)
    ensures Scan(pattern, text, c) == Remaining(pattern, text, c)
    decreases |text| - c.retry, (|pattern| - c.p) + (|text| - c.t)
  {
    if c.t == |text| {
      AtTextEnd(pattern, text, c);
    } else if Literal(pattern, text, c) {
      LiteralStep(pattern, text, c);
      ScanMeaning(pattern, text, c.(p := c.p + 1, t := c.t + 1));
    } else if c.p < |pattern| && pattern[c.p] == STAR {
      if c.star >= 0 { NewStar(pattern, text, c); }
      ScanMeaning(pattern, text, Cursor(c.p + 1, c.t, c.p, c.t));
    } else if c.star >= 0 {
      Backtrack(pattern, text, c);
      ScanMeaning(pattern, text, Cursor(c.star + 1, c.retry + 1, c.star, c.retry + 1));
    }
  }

  /** On texts without a star the matcher gives every pattern its meaning. */
  lemma MatcherCorrect(pattern: bytes, text: bytes)
    requires StarFree(text)
    ensures WildcardMatches(pattern, text) <==> Matches(pattern, text)
  {
    ScanMeaning(pattern, text, Cursor(0, 0, -1, 0));
    assert pattern[0..] == pattern && text[0..] == text;
  }

  // ------------------------------------- the meaning without the functions above

  /** The same byte, or the same ASCII letter in the other case. */
  predicate Alike(a: byte, b: byte) {
    a == b || (0x41 <= a <= 0x5A && b == a + 0x20) || (0x41 <= b <= 0x5A && a == b + 0x20)
  }

  lemma SameLetterIsAlike(a: byte, b: byte)
    ensures SameLetter(a, b) <==> Alike(a, b)
  {
  }

  predicate AllAlike(a: bytes, b: bytes) {
    |a| == |b| && forall i | 0 <= i < |a| :: Alike(a[i], b[i])
  }

  /** What a pattern means, by its first byte: a star stands for any run, a question
      mark for one byte, any other byte for one alike. These clauses determine
      `Matches` on every text. */
  lemma PatternMeaning(pattern: bytes, text: bytes)
    ensures Matches([], text) <==> text == []
    ensures Matches([0x2A] + pattern, text) <==> exists k | 0 <= k <= |text| :: Matches(pattern, text[k..])
    ensures Matches([0x3F] + pattern, text) <==> text != [] && Matches(pattern, text[1..])
    ensures forall b: byte | b != 0x2A && b != 0x3F ::
      Matches([b] + pattern, text) <==> text != [] && Alike(b, text[0]) && Matches(pattern, text[1..])
  {
    StarMeaning(pattern, text);
    assert ([0x3F] + pattern)[1..] == pattern;
    forall b: byte | b != 0x2A && b != 0x3F
      ensures Matches([b] + pattern, text) <==> text != [] && Alike(b, text[0]) && Matches(pattern, text[1..])
    {
      assert ([b] + pattern)[1..] == pattern;
    }
  }

  lemma StarMeaning(pattern: bytes, text: bytes)
    ensures Matches([0x2A] + pattern, text) <==> exists k | 0 <= k <= |text| :: Matches(pattern, text[k..])
  {
    hide Matches;
    var whole := [0x2A] + pattern;
    assert whole[0..] == whole && whole[1..] == pattern && text[0..] == text;
    if Matches(whole, text) {
      var k := StarWitness(whole, text, 0, 0);
    }
    if k :| 0 <= k <= |text| && Matches(pattern, text[k..]) {
      StarMatches(whole, text, 0, 0, k);
    }
  }

  /** Case makes no difference, in the pattern or in the text. */
  lemma CaseBlind(pattern: bytes, pattern': bytes, text: bytes, text': bytes)
    requires StarFree(text) && AllAlike(pattern, pattern') && AllAlike(text, text')
    ensures WildcardMatches(pattern, text) <==> WildcardMatches(pattern', text')
  {
    hide Matches, WildcardMatches;
    forall b | b in text' ensures b != STAR {
      var i :| 0 <= i < |text'| && text'[i] == b;
      assert text[i] in text && Alike(text[i], text'[i]);
    }
    MatcherCorrect(pattern, text);
    MatcherCorrect(pattern', text');
    MeaningCaseBlind(pattern, pattern', text, text');
  }

  lemma {:induction false} MeaningCaseBlind(pattern: bytes, pattern': bytes, text: bytes, text': bytes)
    requires AllAlike(pattern, pattern') && AllAlike(text, text')
    ensures Matches(pattern, text) <==> Matches(pattern', text')
    decreases |pattern|, |text|
  {
    if pattern != [] {
      assert Alike(pattern[0], pattern'[0]);
      MeaningCaseBlind(pattern[1..], pattern'[1..], text, text');
      if text != [] {
        assert Alike(text[0], text'[0]);
        MeaningCaseBlind(pattern, pattern', text[1..], text'[1..]);
        MeaningCaseBlind(pattern[1..], pattern'[1..], text[1..], text'[1..]);
      }
    }
  }

  /** A pattern without wildcards accepts, of all texts, those of its own length that
      are alike byte by byte. */
  lemma LiteralPattern(pattern: bytes, text: bytes)
    requires 0x2A !in pattern && 0x3F !in pattern
    ensures WildcardMatches(pattern, text) <==> AllAlike(pattern, text)
  {
    LiteralScan(pattern, text, 0);
  }

  lemma {:induction false} LiteralScan(pattern: bytes, text: bytes, at: nat)
    requires 0x2A !in pattern && 0x3F !in pattern && at <= |pattern| && at <= |text|
    ensures Scan(pattern, text, Cursor(at, at, -1, 0)) <==>
            |pattern| == |text| && forall i | at <= i < |text| :: Alike(pattern[i], text[i])
    decreases |text| - at
  {
    if at < |pattern| {
      assert pattern[at] in pattern;
      if at < |text| {
        SameLetterIsAlike(pattern[at], text[at]);
        if Alike(pattern[at], text[at]) { LiteralScan(pattern, text, at + 1); }
      }
    }
  }

  /** A star alone accepts every text without a star, a question mark every single byte. */
  lemma SingleWildcards(text: bytes)
    ensures StarFree(text) ==> WildcardMatches([0x2A], text)
    ensures WildcardMatches([0x3F], text) <==> |text| == 1
  {
    if StarFree(text) {
      MatcherCorrect([0x2A], text);
      StarMeaning([], text);
      assert text[|text|..] == [] && [0x2A] + [] == [0x2A];
    }
    if text != [] {
      assert Scan([0x3F], text, Cursor(1, 1, -1, 0)) <==> |text| == 1;
    }
  }

  // ------------------------------------- acceptance is sound on every text

  /** The pattern and the text from a cursor on, aligned byte by byte back to the last
      star; a star of the pattern may have met one in the text. */
  predicate Aligned(pattern: bytes, lo: nat, text: bytes, at: nat, n: nat)
    requires lo + n <= |pattern| && at + n <= |text|
  {
    forall i | lo <= i < lo + n :: pattern[i] == QUESTION || SameLetter(pattern[i], text[at + (i - lo)])
  }

  lemma {:induction false} AlignedThen(pattern: bytes, lo: nat, text: bytes, at: nat, n: nat)
    requires lo + n <= |pattern| && at + n <= |text| && Aligned(pattern, lo, text, at, n)
    requires Matches(pattern[lo + n..], text[at + n..])
    ensures Matches(pattern[lo..], text[at..])
    decreases n
  {
    if n > 0 {
      AlignedThen(pattern, lo + 1, text, at + 1, n - 1);
      assert pattern[lo..][1..] == pattern[lo + 1..] && text[at..][1..] == text[at + 1..];
      if pattern[lo] == STAR { StarMatches(pattern, text, lo, at, at + 1); }
    }
  }

  predicate Followed(pattern: bytes, text: bytes, c: Cursor) {
    && Reachable(pattern, text, c)
    && (c.star >= 0 ==>
          && pattern[c.star] == STAR && c.p - (c.star + 1) == c.t - c.retry
          && Aligned(pattern, c.star + 1, text, c.retry, c.t - c.retry))
  }

  lemma FollowedFurther(pattern: bytes, text: bytes, c: Cursor)
    requires Followed(pattern, text, c) && c.t < |text|
    ensures Literal(pattern, text, c) ==> Followed(pattern, text, c.(p := c.p + 1, t := c.t + 1))
    ensures c.p < |pattern| && pattern[c.p] == STAR ==> Followed(pattern, text, Cursor(c.p + 1, c.t, c.p, c.t))
    ensures c.star >= 0 ==> Followed(pattern, text, Cursor(c.star + 1, c.retry + 1, c.star, c.retry + 1))
  {
  }

  lemma {:induction false} ScanSound(pattern: bytes, text: bytes, c: Cursor)
    requires Followed(pattern, text, c) && Scan(pattern, text, c)
    ensures Remaining(pattern, text, c)
    decreases |text| - c.retry, (|pattern| - c.p) + (|text| - c.t)
  {
    hide Matches, Followed, Aligned;
    FollowedIs(pattern, text, c);
    if c.t == |text| {
      EmptyText(pattern, c.p);
      assert text[c.t..] == [];
      if c.star >= 0 { BackToStar(pattern, text, c); }
    } else if Literal(pattern, text, c) {
      FollowedFurther(pattern, text, c);
      ScanSound(pattern, text, c.(p := c.p + 1, t := c.t + 1));
      if c.star < 0 { OneLiteral(pattern, text, c); }
    } else if c.p < |pattern| && pattern[c.p] == STAR {
      FollowedFurther(pattern, text, c);
      ScanSound(pattern, text, Cursor(c.p + 1, c.t, c.p, c.t));
      if c.star >= 0 { BackToStar(pattern, text, c); }
    } else {
      FollowedFurther(pattern, text, c);
      ScanSound(pattern, text, Cursor(c.star + 1, c.retry + 1, c.star, c.retry + 1));
      OneMoreSkipped(pattern, text, c.star, c.retry);
    }
  }

  lemma FollowedIs(pattern: bytes, text: bytes, c: Cursor)
    requires Followed(pattern, text, c)
    ensures c.p <= |pattern| && c.t <= |text| && c.retry <= c.t && -1 <= c.star < |pattern|
    ensures c.star >= 0 ==> c.star < c.p && pattern[c.star] == STAR
  {
  }

  lemma OneLiteral(pattern: bytes, text: bytes, c: Cursor)
    requires Literal(pattern, text, c) && Matches(pattern[c.p + 1..], text[c.t + 1..])
    ensures Matches(pattern[c.p..], text[c.t..])
  {
    hide Matches;
    AlignedThen(pattern, c.p, text, c.t, 1);
  }

  lemma BackToStar(pattern: bytes, text: bytes, c: Cursor)
    requires Followed(pattern, text, c) && c.star >= 0 && Matches(pattern[c.p..], text[c.t..])
    ensures Remaining(pattern, text, c)
  {
    hide Matches;
    AlignedThen(pattern, c.star + 1, text, c.retry, c.t - c.retry);
    StarMatches(pattern, text, c.star, c.retry, c.retry);
  }

  lemma OneMoreSkipped(pattern: bytes, text: bytes, star: nat, at: nat)
    requires star < |pattern| && pattern[star] == STAR && at < |text| && Matches(pattern[star..], text[at + 1..])
    ensures Matches(pattern[star..], text[at..])
  {
    assert text[at..][1..] == text[at + 1..];
  }

  /** On every text, with stars or without, the matcher accepts only what the pattern means. */
  lemma MatcherSound(pattern: bytes, text: bytes)
    requires WildcardMatches(pattern, text)
    ensures Matches(pattern, text)
  {
    ScanSound(pattern, text, Cursor(0, 0, -1, 0));
    assert pattern[0..] == pattern && text[0..] == text;
  }

  // ------------------------------------------ texts with a star go wrong

  function Questions(n: nat): (q: bytes)
    ensures |q| == n
  {
    seq(n, i => QUESTION)
  }

  lemma {:induction false} QuestionsMatch(text: bytes)
    ensures Matches(Questions(|text|), text)
  {
    if text != [] {
      QuestionsMatch(text[1..]);
      assert Questions(|text|)[1..] == Questions(|text| - 1);
    }
  }

  /** A pattern that fails on a text with a star at `i`: it means "at least one
      byte from i on", but the matcher spends its star on the literal star. */
  function Spoiler(text: bytes, i: nat): bytes
    requires i < |text|
  {
    Questions(i) + [STAR] + Questions(|text| - i)
  }

  lemma SpoilerMatches(text: bytes, i: nat)
    requires i < |text|
    ensures Matches(Spoiler(text, i), text)
  {
    var p := Spoiler(text, i);
    SegmentThen(p, 0, text, 0, i);
    assert p[0..] == p && text[0..] == text;
    assert p[i + 1..] == Questions(|text[i..]|);
    QuestionsMatch(text[i..]);
    StarMatches(p, text, i, i, i);
  }

  lemma {:induction false} SpoilerScan(text: bytes, i: nat, at: nat)
    requires i < |text| && text[i] == STAR && at <= |text|
    ensures !Scan(Spoiler(text, i), text, Cursor(at, at, -1, 0))
    decreases |text| - at
  {
    var p := Spoiler(text, i);
    if at == |text| {
      assert p[|p| - 1] == QUESTION;
    } else {
      assert Literal(p, text, Cursor(at, at, -1, 0));
      SpoilerScan(text, i, at + 1);
    }
  }

  /** A text is matched correctly by every pattern exactly when it has no star. */
  lemma CorrectIffStarFree(text: bytes)
    ensures (forall pattern :: WildcardMatches(pattern, text) <==> Matches(pattern, text)) <==> StarFree(text)
  {
    if StarFree(text) {
      forall pattern ensures WildcardMatches(pattern, text) <==> Matches(pattern, text) {
        MatcherCorrect(pattern, text);
      }
    } else {
      var i :| 0 <= i < |text| && text[i] == STAR;
      SpoilerMatches(text, i);
      SpoilerScan(text, i, 0);
      assert WildcardMatches(Spoiler(text, i), text) != Matches(Spoiler(text, i), text);
    }
  }

  /** The shortest instance: pattern `*` rejects the text `*ab`. */
  lemma StarRejectsStarAB()
    ensures !WildcardMatches([STAR], [STAR, 0x61, 0x62]) && Matches([STAR], [STAR, 0x61, 0x62])
  {
    var p: bytes, t: bytes := [STAR], [STAR, 0x61, 0x62];
    assert !Scan(p, t, Cursor(1, 1, -1, 0));
    assert t[3..] == [] && p[1..] == [] && p[0..] == p && t[0..] == t;
    StarMatches(p, t, 0, 0, 3);
  }
}
