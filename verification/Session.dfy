/** The session: every operation as the exchanges it makes against an arbitrary
    server and an arbitrary cancellation token. */
module Session {
  import opened MessageIds
  import opened ServerCopy
  import opened Bytes

  type FileId = nat

  /** The all-ones handle of requests that name no file. */
  const NO_FILE: FileId := 0xFFFF_FFFF_FFFF_FFFF_FFFF_FFFF_FFFF_FFFF

  /** What a QUERY_INFO or SET_INFO is about. */
  datatype Info = Basic | Standard | FullEa | Security | Disposition | Rename | Link

  datatype Body =
    | Create(path: string) | Close(fileId: FileId)
    | Read(fileId: FileId, length: nat) | Write(fileId: FileId, size: nat)
    | QueryDirectory(fileId: FileId, restart: bool) | ChangeNotify(fileId: FileId)
    | QueryInfo(fileId: FileId, info: Info) | SetInfo(fileId: FileId, info: Info) | Ioctl(fileId: FileId)
    | ResumeKey(fileId: FileId) | CopyChunk(fileId: FileId, key: nat, offset: nat, length: nat)

  datatype Request = Request(id: nat, charge: nat, body: Body)

  /** A server's answer, as far as the session looks at it: whether a frame came
      back, whether it decoded to a success response, whether its inner payload
      decoded, and the values read from it. */
  datatype Reply = Reply(delivered: bool, accepted: bool, payloadDecodes: bool, fileId: FileId,
                         entries: seq<string>, noMoreFiles: bool, outputLength: nat, resumeKey: nat, bytesCopied: nat)
  {
    predicate Good() { delivered && accepted }
  }

  type Server = seq<Request> -> Reply

  /** A reply no operation gives up on. */
  predicate Helpful(reply: Reply, body: Body) {
    reply.delivered && reply.accepted &&
    match body
    case Read(_, _) => reply.payloadDecodes
    case QueryInfo(_, _) => reply.payloadDecodes
    case Ioctl(_) => reply.payloadDecodes
    case Write(_, size) => reply.bytesCopied == size
    case ResumeKey(_) => reply.outputLength >= 24
    case CopyChunk(_, _, _, length) => length > 0 ==> reply.outputLength >= 12 && 0 < reply.bytesCopied <= length
    case _ => true
  }

  /** All requests from `from` on got helpful replies. */
  predicate AllHelpful(server: Server, log: seq<Request>, from: nat) {
    |log| <= from
    || (AllHelpful(server, log[..|log| - 1], from) && Helpful(server(log), log[|log| - 1].body))
  }

  lemma HelpfulMore(server: Server, log: seq<Request>, from: nat, r: Request)
    requires from <= |log|
    ensures AllHelpful(server, log + [r], from) <==> AllHelpful(server, log, from) && Helpful(server(log + [r]), r.body)
  {
    assert (log + [r])[..|log|] == log;
  }

  /** Requests from `from` on were sent one after another's success; `all` if the last
      one was answered with success too. */
  predicate Stepwise(server: Server, log: seq<Request>, from: nat, all: bool) {
    |log| <= from || ((all ==> server(log).Good()) && Stepwise(server, log[..|log| - 1], from, true))
  }

  lemma StepwiseMore(server: Server, log: seq<Request>, from: nat, r: Request)
    requires from <= |log|
    ensures Stepwise(server, log, from, true) ==> Stepwise(server, log, from, false)
    ensures Stepwise(server, log, from, true) ==>
      && Stepwise(server, log + [r], from, false)
      && (server(log + [r]).Good() ==> Stepwise(server, log + [r], from, true))
  {
    assert (log + [r])[..|log|] == log;
  }

  lemma StepwiseStart(server: Server, log: seq<Request>, from: nat)
    ensures Stepwise(server, log, from, true) ==> Stepwise(server, log, from, false)
  {
  }

  /** A server that answers every request helpfully. */
  ghost predicate Obliging(server: Server) {
    forall log: seq<Request> :: log != [] ==> Helpful(server(log), log[|log| - 1].body)
  }

  lemma {:induction false} ObligingHelps(server: Server, log: seq<Request>, from: nat)
    requires Obliging(server)
    ensures AllHelpful(server, log, from)
    decreases |log|
  {
    hide Helpful;
    if |log| > from { ObligingHelps(server, log[..|log| - 1], from); }
  }

  function Windows(log: seq<Request>): (ws: seq<Window>)
    ensures |ws| == |log|
  {
    seq(|log|, i requires 0 <= i < |log| => Window(log[i].id, log[i].charge))
  }

  /** The server does not serve more than `bound` non-empty pages in a row. */
  ghost predicate ListingsEnd(server: Server, bound: nat) {
    forall log: seq<Request> ::
      |log| > bound && (forall i | |log| - bound - 1 <= i < |log| :: log[i].body.QueryDirectory?) ==>
      !server(log).Good() || server(log).noMoreFiles || server(log).entries == []
  }

  /** The first `k` requests of a plan of consecutive ids have been sent. */
  predicate Follows(sent: seq<Send>, plan: seq<nat>, k: nat) {
    k <= |plan| && sent == Consecutive(plan[..k])
  }

  lemma GoodIs(reply: Reply)
    ensures reply.Good() <==> reply.delivered && reply.accepted
  {
  }

  lemma NoneSent(plan: seq<nat>)
    ensures Follows([], plan, 0)
  {
  }

  // ------------------------------------- what an operation says to the server

  /** Bodies of the requests from `from` on. */
  function Said(log: seq<Request>, from: nat): seq<Body> {
    if |log| <= from then [] else Said(log[..|log| - 1], from) + [log[|log| - 1].body]
  }

  /** The handle in the answer to the first of them. */
  function Granted(server: Server, log: seq<Request>, from: nat): FileId {
    if |log| <= from then 0 else server(log[..from + 1]).fileId
  }

  /** The first of them was answered with success. */
  predicate Opened(server: Server, log: seq<Request>, from: nat) {
    |log| > from && server(log[..from + 1]).Good()
  }

  /** Names in the pages answered from `from` on, in order; a page saying there are
      no more files adds none. */
  function Gathered(server: Server, log: seq<Request>, from: nat): seq<string> {
    if |log| <= from then []
    else
      Gathered(server, log[..|log| - 1], from)
      + if log[|log| - 1].body.QueryDirectory? then PageNames(server(log)) else []
  }

  function PageNames(reply: Reply): seq<string> {
    if reply.noMoreFiles then [] else reply.entries
  }

  lemma SaidMore(server: Server, log: seq<Request>, from: nat, r: Request)
    requires from <= |log|
    ensures Said(log + [r], from) == Said(log, from) + [r.body]
    ensures Granted(server, log + [r], from)
         == if Said(log, from) == [] then server(log + [r]).fileId else Granted(server, log, from)
    ensures Opened(server, log + [r], from)
        <==> if Said(log, from) == [] then server(log + [r]).Good() else Opened(server, log, from)
    ensures Gathered(server, log + [r], from)
         == Gathered(server, log, from) + if r.body.QueryDirectory? then PageNames(server(log + [r])) else []
  {
    assert (log + [r])[..|log|] == log;
    if |log| == from {
      assert (log + [r])[..from + 1] == log + [r];
    } else {
      assert (log + [r])[..from + 1] == log[..from + 1];
    }
  }

  /** How an operation ended; `stop` numbers the poll that said cancelled, if any. */
  datatype Outcome = Outcome(op: Operation, ok: bool, stop: nat)

  /** The poll, counted from `from`, at which polling up to `to` ended in a cancellation. */
  function SeenAt(token: nat -> bool, from: nat, to: nat): nat {
    if to > from && token(to - 1) then to - from else 0
  }

  datatype State = State(polls: nat, log: seq<Request>, run: seq<Footprint>, history: seq<Outcome>)

  /** What every operation does: it only adds requests and one outcome; only its last
      poll may say cancelled, and then it fails; otherwise it fails only if some
      reply was not helpful or a request cannot be framed. A request follows only on
      success of the one before, but for the clean-up of copies and enumerations. */
  ghost predicate Ended(server: Server, token: nat -> bool, was: State, now: State, op: Operation, ok: bool) {
    && was.log <= now.log && was.polls <= now.polls
    && (forall i | was.polls <= i < now.polls - 1 :: !token(i))
    && (var stop := SeenAt(token, was.polls, now.polls);
        && now.history == was.history + [Outcome(op, ok, stop)]
        && if stop > 0 then !ok else ok || !AllHelpful(server, now.log, |was.log|) || Oversized(op))
    && (op.CopyServerSide? || (op.ListShares? && !ok) || Stepwise(server, now.log, |was.log|, ok))
    && Asked(op, ok, SeenAt(token, was.polls, now.polls) > 0, now.polls - was.polls, |now.log| - |was.log|)
    && was.run <= now.run && |now.run| == |was.run| + 1
  }

  /** Whatever the operation: if the token never cancels, the server obliges and its
      requests can be framed, it succeeds. */
  lemma ObligedSucceeds(server: Server, token: nat -> bool, was: State, now: State, op: Operation, ok: bool)
    requires Ended(server, token, was, now, op, ok) && Obliging(server) && !Oversized(op) && forall i :: !token(i)
    ensures ok
  {
    ObligingHelps(server, now.log, |was.log|);
  }

  // ------------------------------------------ readings of a copy's requests

  /** Handles the server granted in answer to requests from `from` on. */
  ghost function OpenedIn(server: Server, log: seq<Request>, from: nat): multiset<FileId>
    decreases |log|
  {
    if |log| <= from then multiset{}
    else OpenedIn(server, log[..|log| - 1], from)
         + if log[|log| - 1].body.Create? && server(log).Good() then multiset{server(log).fileId} else multiset{}
  }

  ghost function ClosedIn(log: seq<Request>, from: nat): multiset<FileId>
    decreases |log|
  {
    if |log| <= from then multiset{}
    else ClosedIn(log[..|log| - 1], from)
         + if log[|log| - 1].body.Close? then multiset{log[|log| - 1].body.fileId} else multiset{}
  }

  lemma {:induction false} StepwiseOpens(server: Server, log: seq<Request>, from: nat)
    requires Stepwise(server, log, from, false) && |log| > from + 1
    ensures Opened(server, log, from)
    decreases |log|
  {
    var before := log[..|log| - 1];
    if |before| > from + 1 {
      StepwiseStart(server, before, from);
      StepwiseOpens(server, before, from);
      assert before[..from + 1] == log[..from + 1];
    } else {
      assert before == log[..from + 1];
    }
  }

  /** If only the first request opens a file. */
  lemma {:induction false} OpensFirst(server: Server, log: seq<Request>, from: nat)
    requires from < |log| && log[from].body.Create?
    requires forall i | from < i < |log| :: !log[i].body.Create?
    ensures OpenedIn(server, log, from)
         == if Opened(server, log, from) then multiset{Granted(server, log, from)} else multiset{}
    decreases |log|
  {
    var before := log[..|log| - 1];
    if |before| > from {
      OpensFirst(server, before, from);
      assert before[..from + 1] == log[..from + 1];
    } else {
      assert log[..from + 1] == log && OpenedIn(server, before, from) == multiset{};
    }
  }

  /** If at most the last request closes one. */
  lemma {:induction false} ClosesLast(log: seq<Request>, from: nat)
    requires from < |log| && forall i | from <= i < |log| - 1 :: !log[i].body.Close?
    ensures ClosedIn(log, from)
         == var last := log[|log| - 1].body; if last.Close? then multiset{last.fileId} else multiset{}
    decreases |log|
  {
    var before := log[..|log| - 1];
    if |before| > from { ClosesLast(before, from); }
  }

  /** An operation that opens a file, uses it and closes it leaves the granted handle
      open exactly when it stopped before its last request. */
  lemma HandleClosedIff(server: Server, log: seq<Request>, from: nat, path: string, middle: seq<Body>)
    requires |log| > from + 1 ==> Opened(server, log, from)
    requires forall b | b in middle :: !b.Create? && !b.Close?
    requires Said(log, from) <= [Create(path)] + middle + [Close(Granted(server, log, from))]
    ensures OpenedIn(server, log, from) == ClosedIn(log, from) <==>
            !Opened(server, log, from)
            || Said(log, from) == [Create(path)] + middle + [Close(Granted(server, log, from))]
  {
    hide *;
    var script := [Create(path)] + middle + [Close(Granted(server, log, from))];
    if |log| > from {
      SaidInScript(log, from, script);
      assert forall k | 0 < k < |script| - 1 :: script[k] == middle[k - 1];
      OpensFirst(server, log, from);
      ClosesLast(log, from);
      assert |Said(log, from)| == |script| <==> Said(log, from) == script;
    } else {
      NothingOpened(server, log, from);
    }
  }

  lemma SaidInScript(log: seq<Request>, from: nat, script: seq<Body>)
    requires from <= |log| && Said(log, from) <= script
    ensures |Said(log, from)| == |log| - from && forall i | from <= i < |log| :: log[i].body == script[i - from]
  {
    hide Said;
    SaidAll(log, from);
    forall i | from <= i < |log| ensures log[i].body == script[i - from] {
      assert Said(log, from)[i - from] == log[i].body;
    }
  }

  lemma NothingOpened(server: Server, log: seq<Request>, from: nat)
    requires |log| <= from
    ensures !Opened(server, log, from) && OpenedIn(server, log, from) == ClosedIn(log, from)
  {
  }

  /** The resume key of a copy: in the answer to its third request. */
  function KeyOf(server: Server, log: seq<Request>, from: nat): nat {
    if |log| < from + 3 then 0 else server(log[..from + 3]).resumeKey
  }

  lemma KeyStays(server: Server, before: seq<Request>, log: seq<Request>, from: nat)
    requires before <= log && |before| >= from + 3
    ensures KeyOf(server, log, from) == KeyOf(server, before, from)
    ensures |before| == from + 3 ==> KeyOf(server, log, from) == server(before).resumeKey
  {
    assert log[..from + 3] == before[..from + 3];
    assert before[..|before|] == before;
  }

  /** Bytes a reply validly reports for a chunk of `length` bytes. */
  function ReportedCopy(reply: Reply, length: nat): nat {
    if reply.Good() && reply.outputLength >= 12 && 0 < reply.bytesCopied <= length then reply.bytesCopied else 0
  }

  ghost function AttemptsIn(server: Server, log: seq<Request>, from: nat): seq<Attempt>
    decreases |log|
  {
    if |log| <= from then []
    else
      var body := log[|log| - 1].body;
      AttemptsIn(server, log[..|log| - 1], from)
      + if body.CopyChunk? then [Attempt(body.offset, body.length, ReportedCopy(server(log), body.length))] else []
  }

  lemma Readings(server: Server, log: seq<Request>, from: nat, r: Request)
    requires from <= |log|
    ensures OpenedIn(server, log + [r], from) == OpenedIn(server, log, from)
            + if r.body.Create? && server(log + [r]).Good() then multiset{server(log + [r]).fileId} else multiset{}
    ensures ClosedIn(log + [r], from) == ClosedIn(log, from)
            + if r.body.Close? then multiset{r.body.fileId} else multiset{}
    ensures AttemptsIn(server, log + [r], from) == AttemptsIn(server, log, from)
            + if r.body.CopyChunk?
              then [Attempt(r.body.offset, r.body.length, ReportedCopy(server(log + [r]), r.body.length))] else []
  {
    assert (log + [r])[..|log|] == log;
  }

  // ------------------------------------------------------ readings of a listing

  /** The first `n` page requests of a listing: only the first restarts the scan. */
  function Pages(h: FileId, n: nat): seq<Body> {
    if n == 0 then [] else Pages(h, n - 1) + [QueryDirectory(h, n == 1)]
  }

  /** The last `n` requests asked for pages. */
  predicate PagesAtEnd(log: seq<Request>, n: nat) {
    n <= |log| && forall i | |log| - n <= i < |log| :: log[i].body.QueryDirectory?
  }

  lemma NoPagesAtEnd(log: seq<Request>)
    ensures PagesAtEnd(log, 0)
  {
  }

  lemma PagesAtEndStep(before: seq<Request>, log: seq<Request>, n: nat)
    requires n > 0 && PagesAtEnd(before, n - 1) && |log| == |before| + 1 && before <= log
    requires log[|before|].body.QueryDirectory?
    ensures PagesAtEnd(log, n)
  {
  }

  predicate GoodAt(server: Server, log: seq<Request>, i: nat)
    requires i < |log|
  {
    server(log[..i + 1]).Good()
  }

  predicate MoreAt(server: Server, log: seq<Request>, i: nat)
    requires i < |log|
  {
    var reply := server(log[..i + 1]);
    !reply.noMoreFiles && reply.entries != []
  }

  /** A listing's requests follow the answers: every answer but the last is a success,
      and a page is followed by the close exactly when it was the last one. */
  ghost predicate ListingFollows(server: Server, log: seq<Request>, from: nat) {
    && (forall i | from <= i < |log| - 1 :: GoodAt(server, log, i))
    && (forall i | from < i < |log| - 1 :: log[i + 1].body.Close? <==> !MoreAt(server, log, i))
  }

  predicate PageFits(server: Server, log: seq<Request>)
    requires log != []
  {
    MoreAt(server, log, |log| - 1)
  }

  predicate CloseFits(server: Server, log: seq<Request>)
    requires log != []
  {
    !MoreAt(server, log, |log| - 1)
  }

  lemma Fits(server: Server, log: seq<Request>)
    requires log != []
    ensures PageFits(server, log) <==> !server(log).noMoreFiles && server(log).entries != []
    ensures CloseFits(server, log) <==> !PageFits(server, log)
  {
    assert log[..|log|] == log;
  }

  lemma ListingStarts(server: Server, log: seq<Request>, from: nat)
    ensures |log| <= from + 1 ==> ListingFollows(server, log, from)
  {
  }

  lemma ListingFollowsStep(server: Server, log: seq<Request>, from: nat, r: Request)
    requires ListingFollows(server, log, from) && |log| > from && server(log).delivered && server(log).accepted
    requires |log| > from + 1 ==> if r.body.Close? then CloseFits(server, log) else PageFits(server, log)
    ensures ListingFollows(server, log + [r], from)
  {
    var more := log + [r];
    assert more[..|log|] == log && log[..|log|] == log;
    forall i | from <= i < |more| - 1 ensures GoodAt(server, more, i) {
      assert more[..i + 1] == log[..i + 1];
      if i < |log| - 1 { assert GoodAt(server, log, i); }
    }
    forall i | from < i < |more| - 1 ensures more[i + 1].body.Close? <==> !MoreAt(server, more, i) {
      assert more[..i + 1] == log[..i + 1];
      assert MoreAt(server, more, i) <==> MoreAt(server, log, i);
    }
  }

  lemma GatheredNothing(server: Server, log: seq<Request>, from: nat)
    requires |log| == from + 1 && !log[from].body.QueryDirectory?
    ensures Gathered(server, log, from) == []
  {
  }

  lemma SeenAtIs(token: nat -> bool, from: nat, to: nat)
    ensures SeenAt(token, from, to) == if to > from && token(to - 1) then to - from else 0
  {
  }

  lemma NoPages()
    ensures forall h :: Pages(h, 0) == []
  {
  }

  lemma PagesStep(h: FileId, n: nat)
    ensures Pages(h, n + 1) == Pages(h, n) + [QueryDirectory(h, n == 0)]
  {
  }

  lemma SaidNothing(log: seq<Request>, from: nat)
    ensures Said(log, from) == [] <==> |log| <= from
  {
  }

  lemma NamesOfPage(reply: Reply)
    ensures PageNames(reply) == if reply.noMoreFiles then [] else reply.entries
  {
  }

  predicate DotName(name: string) { name == "." || name == ".." }

  function WithoutDots(names: seq<string>): seq<string> {
    if names == [] then []
    else
      var last := names[|names| - 1];
      WithoutDots(names[..|names| - 1]) + if DotName(last) then [] else [last]
  }

  method KeepNames(found: seq<string>) returns (names: seq<string>)
    ensures names == WithoutDots(found)
  {
    names := [];
    var i := 0;
    while i < |found|
      invariant 0 <= i <= |found| && names == WithoutDots(found[..i])
    {
      assert found[..i + 1][..i] == found[..i];
      if !DotName(found[i]) { names := names + [found[i]]; }
      i := i + 1;
    }
    assert found[..i] == found;
  }

  /** Nothing but dot entries is lost, and order is kept. */
  lemma {:induction false} WithoutDotsKeeps(names: seq<string>)
    ensures forall name ::
      multiset(WithoutDots(names))[name] == if name == "." || name == ".." then 0 else multiset(names)[name]
  {
    if names != [] {
      WithoutDotsKeeps(names[..|names| - 1]);
      assert names == names[..|names| - 1] + [names[|names| - 1]];
    }
  }

  /** The request between an open and its close. */
  datatype Middle = SetOf(info: Info) | QueryOf(info: Info) | Fsctl | Notify

  function MiddleBody(m: Middle, h: FileId): Body {
    match m
    case SetOf(info) => SetInfo(h, info)
    case QueryOf(info) => QueryInfo(h, info)
    case Fsctl => Ioctl(h)
    case Notify => ChangeNotify(h)
  }

  lemma MiddleQueries(info: Info, h: FileId)
    ensures MiddleBody(QueryOf(info), h) == QueryInfo(h, info)
  {
  }

  // ----------------------------------------------------------- the session

  class NativeSession {
    const server: Server
    const token: nat -> bool    // answers of the cancellation token, poll by poll
    const first: nat
    ghost const pageBound: nat
    var polls: nat
    var nextMessageId: nat
    var log: seq<Request>
    // requests of the operation in progress, and the footprints of the finished ones
    ghost var start: nat
    ghost var begun: nat          // length of the log when it began
    ghost var sent: seq<Send>
    ghost var run: seq<Footprint>
    ghost var history: seq<Outcome>

    ghost predicate NeverCancelled() { forall i :: !token(i) }

    /** In the middle of an operation. */
    ghost predicate Open()
      reads `start, `begun, `run, `log, `sent, `history
    {
      && start == first + Reserved(run) && begun <= |log|
      && Windows(log) == Layout(run, first) + Shifted(start, sent)
      && |history| == |run|
      && (forall i | 0 <= i < |run| :: Possible(history[i].op, history[i].ok, history[i].stop, run[i]))
      && ListingsEnd(server, pageBound)
    }

    /** Between operations. */
    ghost predicate Valid()
      reads `start, `begun, `run, `log, `sent, `history, `nextMessageId
    {
      Open() && sent == [] && nextMessageId == start && begun == |log|
    }

    constructor (server: Server, token: nat -> bool, firstMessageId: nat, ghost pageBound: nat)
      requires ListingsEnd(server, pageBound)
      ensures Valid() && log == [] && run == [] && history == [] && polls == 0
      ensures this.server == server && this.token == token
      ensures first == if firstMessageId == 0 then 1 else firstMessageId
    {
      this.server, this.token, this.pageBound := server, token, pageBound;
      first := if firstMessageId == 0 then 1 else firstMessageId;
      nextMessageId := if firstMessageId == 0 then 1 else firstMessageId;
      polls, log, sent, run, history, begun := 0, [], [], [], [], 0;
      start := if firstMessageId == 0 then 1 else firstMessageId;
    }

    method Poll() returns (cancelled: bool)
      modifies `polls
      ensures polls == old(polls) + 1 && cancelled == token(old(polls))
    {
      cancelled := token(polls);
      polls := polls + 1;
    }

    method AllocateMessageIds(count: nat) returns (id: nat)
      modifies `nextMessageId
      ensures id == old(nextMessageId) && nextMessageId == old(nextMessageId) + count
    {
      id := nextMessageId;
      nextMessageId := nextMessageId + count;
    }

    /** Sends one request and takes the server's answer to it. */
    method Transmit(id: nat, charge: nat, body: Body) returns (reply: Reply)
      requires Open() && id >= start
      modifies `log, `sent
      ensures Open() && sent == old(sent) + [Send(id - start, charge)]
      ensures log == old(log) + [Request(id, charge, body)] && reply == server(log)
      ensures Said(log, begun) == Said(old(log), begun) + [body]
      ensures Granted(server, log, begun)
           == if Said(old(log), begun) == [] then reply.fileId else Granted(server, old(log), begun)
      ensures Opened(server, log, begun)
          <==> if Said(old(log), begun) == [] then reply.Good() else Opened(server, old(log), begun)
      ensures Stepwise(server, old(log), begun, true) ==>
        Stepwise(server, log, begun, false)
        && (reply.delivered && reply.accepted ==> Stepwise(server, log, begun, true))
      ensures AllHelpful(server, log, begun) <==> AllHelpful(server, old(log), begun) && Helpful(reply, body)
    {
      hide Layout, Possible, ListingsEnd, Said, Granted, Opened, Gathered, PageNames, AllHelpful, Helpful,
        Stepwise;
      SaidMore(server, log, begun, Request(id, charge, body));
      StepwiseMore(server, log, begun, Request(id, charge, body));
      HelpfulMore(server, log, begun, Request(id, charge, body));
      ghost var send := Send(id - start, charge);
      assert Shifted(start, sent + [send]) == Shifted(start, sent) + [Window(id, charge)];
      assert Windows(log + [Request(id, charge, body)]) == Windows(log) + [Window(id, charge)];
      log := log + [Request(id, charge, body)];
      sent := sent + [send];
      reply := server(log);
    }

    /** A step of a plan of consecutive requests. */
    method TransmitNext(id: nat, charge: nat, body: Body, ghost plan: seq<nat>, ghost k: nat) returns (reply: Reply)
      requires Open() && Follows(sent, plan, k) && k < |plan| && plan[k] == charge && id == start + k
      modifies `log, `sent
      ensures Open() && Follows(sent, plan, k + 1)
      ensures log == old(log) + [Request(id, charge, body)] && reply == server(log)
      ensures Said(log, begun) == Said(old(log), begun) + [body]
      ensures Granted(server, log, begun)
           == if Said(old(log), begun) == [] then reply.fileId else Granted(server, old(log), begun)
      ensures Opened(server, log, begun)
          <==> if Said(old(log), begun) == [] then reply.delivered && reply.accepted
               else Opened(server, old(log), begun)
      ensures Stepwise(server, old(log), begun, true) ==>
        Stepwise(server, log, begun, false)
        && (reply.delivered && reply.accepted ==> Stepwise(server, log, begun, true))
      ensures AllHelpful(server, log, begun) ==>
        && AllHelpful(server, old(log), begun) && reply.delivered && reply.accepted
        && (body.Ioctl? || body.QueryInfo? ==> reply.payloadDecodes)
    {
      hide Layout, Possible, ListingsEnd, Windows, Said, Granted, Gathered, PageNames, AllHelpful, Opened,
        Stepwise;
      reply := Transmit(id, charge, body);
      assert Consecutive(plan[..k + 1]) == Consecutive(plan[..k]) + [Send(k, charge)];
    }

    /** The pattern of the exchangers: poll, send, poll again, decode. `done` requests
        of the plan have been sent then. */
    method Exchange(id: nat, charge: nat, body: Body, ghost plan: seq<nat>, ghost k: nat)
        returns (ok: bool, reply: Reply, ghost done: nat)
      requires Open() && Follows(sent, plan, k) && k < |plan| && plan[k] == charge && id == start + k
      modifies `log, `sent, `polls
      ensures Open() && Follows(sent, plan, done)
      ensures old(polls) < polls <= old(polls) + 2 && (polls == old(polls) + 2 ==> !token(old(polls)))
      ensures done == if polls == old(polls) + 1 && token(old(polls)) then k else k + 1
      ensures ok ==> polls == old(polls) + 2 && !token(polls - 1)
      ensures !ok && !token(polls - 1) ==> !(reply.delivered && reply.accepted)
      ensures done == k ==> log == old(log)
      ensures Stepwise(server, old(log), begun, true) ==> Stepwise(server, log, begun, ok)
      ensures done == k + 1 ==>
        && log == old(log) + [Request(id, charge, body)] && reply == server(log)
        && Said(log, begun) == Said(old(log), begun) + [body]
        && Granted(server, log, begun)
           == (if Said(old(log), begun) == [] then reply.fileId else Granted(server, old(log), begun))
        && (Opened(server, log, begun)
            <==> if Said(old(log), begun) == [] then reply.delivered && reply.accepted
                 else Opened(server, old(log), begun))
        && (ok ==> reply.delivered && reply.accepted)
        && (AllHelpful(server, log, begun) ==>
              && AllHelpful(server, old(log), begun) && reply.delivered && reply.accepted
              && (body.QueryInfo? ==> reply.payloadDecodes))
    {
      hide Layout, Possible, ListingsEnd, Windows, Follows, Said, Granted, Gathered, PageNames, AllHelpful, Opened,
        Stepwise;
      reply, done := server(log), k;
      StepwiseStart(server, log, begun);
      var cancelled := Poll();
      if cancelled { return false, reply, done; }
      reply := TransmitNext(id, charge, body, plan, k);
      done := k + 1;
      if !reply.delivered { return false, reply, done; }
      cancelled := Poll();
      if cancelled { return false, reply, done; }
      ok := reply.accepted;
    }

    /** Ends an operation that began after `polled` polls with the log `was`: its
        requests become a footprint of the run. */
    ghost method Commit(op: Operation, ok: bool, reserved: nat, polled: nat, was: seq<Request>)
      requires Open() && nextMessageId == start + reserved && was <= log && |was| == begun
      requires polled <= polls && forall i | polled <= i < polls - 1 :: !token(i)
      requires if polls > polled && token(polls - 1) then !ok
               else ok || !AllHelpful(server, log, begun) || Oversized(op)
      requires op.CopyServerSide? || (op.ListShares? && !ok) || Stepwise(server, log, begun, ok)
      requires Asked(op, ok, polls > polled && token(polls - 1), polls - polled, |log| - |was|)
      requires Possible(op, ok, if polls > polled && token(polls - 1) then polls - polled else 0,
                        Footprint(sent, reserved))
      modifies `start, `begun, `sent, `run, `history
      ensures Valid() && log == old(log)
      ensures Ended(server, token, State(polled, was, old(run), old(history)),
                    State(polls, log, run, history), op, ok)
      ensures run == old(run) + [Footprint(old(sent), reserved)]
    {
      hide Possible, Asked, ListingsEnd, Windows, Shifted, AllHelpful, Stepwise, Layout, Reserved;
      LayoutAppend(run, Footprint(sent, reserved), first);
      run, history := run + [Footprint(sent, reserved)], history + [Outcome(op, ok, SeenAt(token, polled, polls))];
      start, sent, begun := start + reserved, [], |log|;
      ShiftedNothing(start);
      assert Layout(run, first) + [] == Layout(run, first);
    }

    lemma StartOf()
      requires Valid()
      ensures Open() && sent == [] && nextMessageId == start
      ensures begun == |log| && Said(log, begun) == [] && Gathered(server, log, begun) == []
      ensures !Opened(server, log, begun) && Stepwise(server, log, begun, true)
    {
    }

    // ---------------------------------- operations that reserve their ids first

    /** FileReader.readOnce */
    method ReadSteps(path: string, length: nat, messageId: nat, ghost plan: seq<nat>) returns (ok: bool, ghost k: nat)
      requires Open() && sent == [] && messageId == start && Said(log, begun) == []
      requires plan == [1, PayloadCharge(length), 1]
      requires Stepwise(server, log, begun, true)
      modifies `log, `sent, `polls
      ensures var asked, made := polls - old(polls), |log| - |old(log)|;
              if asked > 0 && token(polls - 1) then 2 * made <= asked <= 2 * made + 1
              else if ok then asked == 2 * made else 1 <= made && 2 * made - 1 <= asked <= 2 * made
      ensures Stepwise(server, log, begun, ok)
      ensures old(polls) <= polls && forall i | old(polls) <= i < polls - 1 :: !token(i)
      ensures if polls > old(polls) && token(polls - 1) then !ok else ok || !AllHelpful(server, log, begun)
      ensures Open() && Follows(sent, plan, k) && (ok ==> k == 3)
      ensures old(log) <= log
      ensures var h := Granted(server, log, begun);
              var script := [Create(path), Read(h, length), Close(h)];
              Said(log, begun) <= script && (ok ==> Said(log, begun) == script)
    {
      hide *;
      StepwiseStart(server, log, begun);
      var create, read, close: Reply;
      NoneSent(plan);
      k := 0;
      ok, create, k := Exchange(messageId, 1, Create(path), plan, 0);
      if !ok { return; }
      ok, read, k := Exchange(messageId + 1, PayloadCharge(length), Read(create.fileId, length), plan, 1);
      if !ok { return; }
      ok, close, k := Exchange(messageId + 2, 1, Close(create.fileId), plan, 2);
    }

    method ReadFileOnce(path: string, length: nat) returns (ok: bool)
      requires Valid()
      modifies this
      ensures Valid() && Ended(server, token, State(old(polls), old(log), old(run), old(history)),
                                State(polls, log, run, history), ReadOnce(length), ok)
      ensures old(log) <= log
      ensures var h := Granted(server, log, |old(log)|);
              var script := [Create(path), Read(h, length), Close(h)];
              Said(log, |old(log)|) <= script && (ok ==> Said(log, |old(log)|) == script)
    {
      hide *;
      StartOf();
      ghost var polled := polls;
      var messageId := AllocateMessageIds(3);
      ghost var plan := [1, PayloadCharge(length), 1];
      ghost var k;
      ok, k := ReadSteps(path, length, messageId, plan);
      ghost var stop := if polls > polled && token(polls - 1) then polls - polled else 0;
      PlanPossible(ReadOnce(length), ok, stop, sent, plan, k, 3);
      AskedIs(ReadOnce(length), ok, polls > polled && token(polls - 1), polls - polled, |log| - |old(log)|);
      Commit(ReadOnce(length), ok, 3, polled, old(log));
    }

    method OpenFileForRead(path: string) returns (ok: bool, handle: FileId)
      requires Valid()
      modifies this
      ensures Valid() && Ended(server, token, State(old(polls), old(log), old(run), old(history)),
                                State(polls, log, run, history), OpenForRead, ok)
      ensures old(log) <= log && Said(log, |old(log)|) == [Create(path)] && handle == Granted(server, log, |old(log)|)
    {
      hide *;
      StartOf();
      ghost var polled := polls;
      var messageId := AllocateMessageIds(1);
      NoneSent([1]);
      var reply := TransmitNext(messageId, 1, Create(path), [1], 0);
      ok, handle := reply.delivered && reply.accepted, reply.fileId;
      PlanPossible(OpenForRead, ok, 0, sent, [1], 1, 1);
      AskedIs(OpenForRead, ok, false, 0, |log| - |old(log)|);
      Commit(OpenForRead, ok, 1, polled, old(log));
    }

    method ReadFileChunk(handle: FileId, length: nat) returns (ok: bool)
      requires Valid()
      modifies this
      ensures Valid() && Ended(server, token, State(old(polls), old(log), old(run), old(history)),
                                State(polls, log, run, history), ReadChunk(length), ok)
      ensures old(log) <= log && Said(log, |old(log)|) <= [Read(handle, length)]
      ensures ok ==> Said(log, |old(log)|) == [Read(handle, length)]
    {
      hide *;
      StartOf();
      ghost var polled := polls;
      var messageId := AllocateMessageIds(CreditCharge(length));
      ghost var plan := [PayloadCharge(length)];
      NoneSent(plan);
      var reply;
      ghost var k;
      ok, reply, k := Exchange(messageId, PayloadCharge(length), Read(handle, length), plan, 0);
      ghost var stop := if polls > polled && token(polls - 1) then polls - polled else 0;
      PlanPossible(ReadChunk(length), ok, stop, sent, plan, k, CreditCharge(length));
      AskedIs(ReadChunk(length), ok, polls > polled && token(polls - 1), polls - polled, |log| - |old(log)|);
      Commit(ReadChunk(length), ok, CreditCharge(length), polled, old(log));
    }

    method CloseFileHandle(handle: FileId) returns (ok: bool)
      requires Valid()
      modifies this
      ensures Valid() && Ended(server, token, State(old(polls), old(log), old(run), old(history)),
                                State(polls, log, run, history), CloseHandle, ok)
      ensures old(log) <= log && Said(log, |old(log)|) <= [Close(handle)]
      ensures ok ==> Said(log, |old(log)|) == [Close(handle)]
    {
      hide *;
      StartOf();
      ghost var polled := polls;
      var messageId := AllocateMessageIds(1);
      NoneSent([1]);
      var reply;
      ghost var k;
      ok, reply, k := Exchange(messageId, 1, Close(handle), [1], 0);
      ghost var stop := if polls > polled && token(polls - 1) then polls - polled else 0;
      PlanPossible(CloseHandle, ok, stop, sent, [1], k, 1);
      AskedIs(CloseHandle, ok, polls > polled && token(polls - 1), polls - polled, |log| - |old(log)|);
      Commit(CloseHandle, ok, 1, polled, old(log));
    }

    /** RemoteObjectOperator.createDirectory: its open is not followed by a poll
        before decoding. */
    method CreateDirectorySteps(path: string, messageId: nat) returns (ok: bool, ghost k: nat)
      requires Open() && sent == [] && messageId == start && Said(log, begun) == []
      requires Stepwise(server, log, begun, true)
      modifies `log, `sent, `polls
      ensures var asked, made := polls - old(polls), |log| - |old(log)|;
              if asked > 0 && token(polls - 1) then 2 * made <= asked <= 2 * made + 1
              else if ok then asked == 2 * made else 1 <= made && 2 * made - 1 <= asked <= 2 * made
      ensures Stepwise(server, log, begun, ok)
      ensures old(polls) <= polls && forall i | old(polls) <= i < polls - 1 :: !token(i)
      ensures if polls > old(polls) && token(polls - 1) then !ok else ok || !AllHelpful(server, log, begun)
      ensures Open() && Follows(sent, Ones(2), k)
      ensures old(log) <= log
      ensures var h := Granted(server, log, begun);
              var script := [Create(path), Close(h)];
              Said(log, begun) <= script && (ok ==> Said(log, begun) == script)
    {
      hide *;
      StepwiseStart(server, log, begun);
      OnesAre(2);
      NoneSent(Ones(2));
      k := 0;
      var cancelled := Poll();
      if cancelled { return false, 0; }
      var create := TransmitNext(messageId, 1, Create(path), Ones(2), 0);
      k := 1;
      if !create.delivered || !create.accepted { return false, k; }
      cancelled := Poll();
      if cancelled { return false, k; }
      var close;
      ok, close, k := Exchange(messageId + 1, 1, Close(create.fileId), Ones(2), 1);
    }

    method MakeDirectory(path: string) returns (ok: bool)
      requires Valid()
      modifies this
      ensures Valid() && Ended(server, token, State(old(polls), old(log), old(run), old(history)),
                                State(polls, log, run, history), CreateDirectory, ok)
      ensures old(log) <= log
      ensures var h := Granted(server, log, |old(log)|);
              var script := [Create(path), Close(h)];
              Said(log, |old(log)|) <= script && (ok ==> Said(log, |old(log)|) == script)
    {
      hide *;
      StartOf();
      ghost var polled := polls;
      var messageId := AllocateMessageIds(2);
      ghost var k;
      ok, k := CreateDirectorySteps(path, messageId);
      ghost var stop := if polls > polled && token(polls - 1) then polls - polled else 0;
      PlanPossible(CreateDirectory, ok, stop, sent, Ones(2), k, 2);
      AskedIs(CreateDirectory, ok, polls > polled && token(polls - 1), polls - polled, |log| - |old(log)|);
      Commit(CreateDirectory, ok, 2, polled, old(log));
    }

    /** One request on an open file and its close; `quietly` if the request goes
        out without polls. */
    method UseAndClose(path: string, h: FileId, middle: Middle, quietly: bool, messageId: nat)
        returns (ok: bool, reply: Reply, ghost k: nat)
      requires Open() && messageId == start && Follows(sent, Ones(3), 1)
      requires Said(log, begun) == [Create(path)] && Granted(server, log, begun) == h
      requires polls > 0 && !token(polls - 1)
      requires Stepwise(server, log, begun, true)
      modifies `log, `sent, `polls
      ensures Stepwise(server, log, begun, ok)
      ensures old(polls) <= polls && forall i | old(polls) <= i < polls - 1 :: !token(i)
      ensures if token(polls - 1) then !ok else ok || !AllHelpful(server, log, begun)
      ensures var asked, made := polls - old(polls), |log| - |old(log)|;
              if quietly
              then if token(polls - 1) then 1 <= asked <= 2 && made == asked
                   else if ok then asked == made == 2 else 1 <= made <= 2 && made - 1 <= asked <= made
              else if token(polls - 1) then 2 * made <= asked <= 2 * made + 1
              else if ok then asked == 2 * made else 1 <= made && 2 * made - 1 <= asked <= 2 * made
      ensures Open() && Follows(sent, Ones(3), k) && old(log) <= log && Granted(server, log, begun) == h
      ensures var script := [Create(path), MiddleBody(middle, h), Close(h)];
              Said(log, begun) <= script && (ok ==> Said(log, begun) == script)
    {
      hide *;
      StepwiseStart(server, log, begun);
      OnesAre(3);
      if quietly {
        reply := TransmitNext(messageId + 1, 1, MiddleBody(middle, h), Ones(3), 1);
        k := 2;
        ok := reply.delivered && reply.accepted;
      } else {
        ok, reply, k := Exchange(messageId + 1, 1, MiddleBody(middle, h), Ones(3), 1);
      }
      if !ok { return; }
      var close;
      ok, close, k := Exchange(messageId + 2, 1, Close(h), Ones(3), 2);
    }

    /** Open, one more request, close: the shape of delete, rename and hard link (a
        SET_INFO), of symbolic link (an IOCTL, sent without polls) and of a directory
        watch (a CHANGE_NOTIFY). */
    method ThreeSteps(path: string, middle: Middle, messageId: nat) returns (ok: bool, ghost k: nat)
      requires Open() && sent == [] && messageId == start && Said(log, begun) == []
      requires Stepwise(server, log, begun, true)
      modifies `log, `sent, `polls
      ensures var asked, made := polls - old(polls), |log| - |old(log)|;
              if middle.Fsctl?
              then if asked > 0 && token(polls - 1) then 1 <= asked <= 4 && made == asked - 1
                   else if ok then asked == 4 && made == 3 else 1 <= made <= 3 && made <= asked <= made + 1
              else if asked > 0 && token(polls - 1) then 2 * made <= asked <= 2 * made + 1
              else if ok then asked == 2 * made else 1 <= made && 2 * made - 1 <= asked <= 2 * made
      ensures Stepwise(server, log, begun, ok)
      ensures old(polls) <= polls && forall i | old(polls) <= i < polls - 1 :: !token(i)
      ensures if polls > old(polls) && token(polls - 1) then !ok else ok || !AllHelpful(server, log, begun)
      ensures Open() && Follows(sent, Ones(3), k)
      ensures old(log) <= log
      ensures var h := Granted(server, log, begun);
              var script := [Create(path), MiddleBody(middle, h), Close(h)];
              Said(log, begun) <= script && (ok ==> Said(log, begun) == script)
    {
      hide *;
      StepwiseStart(server, log, begun);
      OnesAre(3);
      NoneSent(Ones(3));
      k := 0;
      var cancelled := Poll();
      if cancelled { return false, 0; }
      var create := TransmitNext(messageId, 1, Create(path), Ones(3), 0);
      k := 1;
      if !create.delivered || !create.accepted { return false, k; }
      cancelled := Poll();
      if cancelled { return false, k; }
      var reply;
      ok, reply, k := UseAndClose(path, create.fileId, middle, middle.Fsctl?, messageId);
    }

    /** deleteObject, renameObject, createHardLink and createSymbolicLink */
    method Mutate(path: string, middle: Middle) returns (ok: bool)
      requires Valid()
      modifies this
      ensures Valid() && Ended(server, token, State(old(polls), old(log), old(run), old(history)),
                                State(polls, log, run, history), MutateObject(middle.Fsctl?), ok)
      ensures old(log) <= log
      ensures var h := Granted(server, log, |old(log)|);
              var script := [Create(path), MiddleBody(middle, h), Close(h)];
              Said(log, |old(log)|) <= script && (ok ==> Said(log, |old(log)|) == script)
    {
      hide *;
      StartOf();
      ghost var polled := polls;
      var messageId := AllocateMessageIds(3);
      ghost var k;
      ok, k := ThreeSteps(path, middle, messageId);
      ghost var stop := if polls > polled && token(polls - 1) then polls - polled else 0;
      PlanPossible(MutateObject(middle.Fsctl?), ok, stop, sent, Ones(3), k, 3);
      AskedIs(MutateObject(middle.Fsctl?), ok, polls > polled && token(polls - 1), polls - polled, |log| - |old(log)|);
      Commit(MutateObject(middle.Fsctl?), ok, 3, polled, old(log));
    }

    method WatchDirectoryOnce(path: string) returns (ok: bool)
      requires Valid()
      modifies this
      ensures Valid() && Ended(server, token, State(old(polls), old(log), old(run), old(history)),
                                State(polls, log, run, history), Watch, ok)
      ensures old(log) <= log
      ensures var h := Granted(server, log, |old(log)|);
              var script := [Create(path), MiddleBody(Notify, h), Close(h)];
              Said(log, |old(log)|) <= script && (ok ==> Said(log, |old(log)|) == script)
    {
      hide *;
      StartOf();
      ghost var polled := polls;
      var messageId := AllocateMessageIds(3);
      ghost var k;
      ok, k := ThreeSteps(path, Notify, messageId);
      ghost var stop := if polls > polled && token(polls - 1) then polls - polled else 0;
      PlanPossible(Watch, ok, stop, sent, Ones(3), k, 3);
      AskedIs(Watch, ok, polls > polled && token(polls - 1), polls - polled, |log| - |old(log)|);
      Commit(Watch, ok, 3, polled, old(log));
    }

    // ------------------------ operations that report how many requests they made

    /** FileWriter.writeOnce; `thrown` if the frame encoder refuses the WRITE, which
        leaves the file open. */
    method WriteSteps(path: string, size: nat, messageId: nat, ghost plan: seq<nat>)
        returns (ok: bool, thrown: bool, used: nat, ghost k: nat)
      requires Open() && sent == [] && messageId == start && Said(log, begun) == [] && !Opened(server, log, begun)
      requires plan == if size == 0 then [1, 1] else [1, PayloadCharge(size), 1]
      requires Stepwise(server, log, begun, true)
      modifies `log, `sent, `polls
      ensures var asked, made := polls - old(polls), |log| - |old(log)|;
              if asked > 0 && token(polls - 1) then 2 * made <= asked <= 2 * made + 1
              else if ok then asked == 2 * made
              else 1 <= made && 2 * made - 1 <= asked <= 2 * made + if size > MAX_DATA then 1 else 0
      ensures Stepwise(server, log, begun, ok)
      ensures old(polls) <= polls && forall i | old(polls) <= i < polls - 1 :: !token(i)
      ensures if polls > old(polls) && token(polls - 1) then !ok else ok || !AllHelpful(server, log, begun) || thrown
      ensures Open() && Follows(sent, plan, k) && (ok ==> k == |plan| == used)
      ensures thrown <==> size > MAX_DATA && !(polls > old(polls) && token(polls - 1)) && Opened(server, log, begun)
      ensures size > MAX_DATA ==> !ok && k <= 1 && (thrown ==> k == 1)
      ensures old(log) <= log
      ensures var h := Granted(server, log, begun);
              var script := if size == 0 then [Create(path), Close(h)] else [Create(path), Write(h, size), Close(h)];
              Said(log, begun) <= script && (ok ==> Said(log, begun) == script)
      ensures size > MAX_DATA ==> Said(log, begun) <= [Create(path)]
    {
      hide *;
      StepwiseStart(server, log, begun);
      var create, write, close: Reply;
      NoneSent(plan);
      k, used, thrown := 0, 0, false;
      ok, create, k := Exchange(messageId, 1, Create(path), plan, 0);
      if !ok { return; }
      if size == 0 {
        ok, close, k := Exchange(messageId + 1, 1, Close(create.fileId), plan, 1);
        used := 2;
        return;
      }
      if size > MAX_DATA {
        var cancelled := Poll();
        ok, thrown := false, !cancelled;
        StepwiseStart(server, log, begun);
        return;
      }
      ok, write, k := Exchange(messageId + 1, PayloadCharge(size), Write(create.fileId, size), plan, 1);
      if !ok { return; }
      ok, close, k := Exchange(messageId + 2, 1, Close(create.fileId), plan, 2);
      used := 3;
    }

    /** Of data that no frame can hold at most the open is sent; if that succeeds and no
        poll says cancelled, the exception leaves the next id where it was. */
    method WriteFileOnce(path: string, size: nat) returns (ok: bool, thrown: bool)
      requires Valid()
      modifies this
      ensures Valid() && Ended(server, token, State(old(polls), old(log), old(run), old(history)),
                                State(polls, log, run, history), WriteOnce(size), ok)
      ensures old(log) <= log
      ensures var h := Granted(server, log, |old(log)|);
              var script := if size == 0 then [Create(path), Close(h)] else [Create(path), Write(h, size), Close(h)];
              Said(log, |old(log)|) <= script && (ok ==> Said(log, |old(log)|) == script)
      ensures size > MAX_DATA ==> !ok && Said(log, |old(log)|) <= [Create(path)]
      ensures thrown <==> size > MAX_DATA && SeenAt(token, old(polls), polls) == 0 && Opened(server, log, |old(log)|)
      ensures !ok && !thrown && SeenAt(token, old(polls), polls) == 0 ==> !AllHelpful(server, log, |old(log)|)
      ensures nextMessageId == old(nextMessageId) + if thrown then 0 else if ok && size == 0 then 2 else 3
    {
      hide *;
      StartOf();
      ghost var polled := polls;
      ghost var plan := if size == 0 then [1, 1] else [1, PayloadCharge(size), 1];
      var used;
      ghost var k;
      ok, thrown, used, k := WriteSteps(path, size, nextMessageId, plan);
      SeenAtIs(token, polled, polls);
      OversizedIs(size);
      if thrown { used := 0; } else if !ok { used := 3; }
      nextMessageId := nextMessageId + used;
      ghost var stop := if polls > polled && token(polls - 1) then polls - polled else 0;
      WritePossible(size, ok, stop, sent, plan, k, used);
      AskedIs(WriteOnce(size), ok, polls > polled && token(polls - 1), polls - polled, |log| - |old(log)|);
      Commit(WriteOnce(size), ok, used, polled, old(log));
    }

    /** One query of a stat, the poll after it and the decoding; it is request number
        `count`. */
    method StatQuery(id: nat, count: nat, h: FileId, info: Info, ghost n: nat)
        returns (ok: bool, used: nat, ghost k: nat)
      requires Open() && 1 <= n <= 2 && count == n + 1 && Follows(sent, Ones(4), n) && id == start + n
      requires Said(log, begun) != []
      requires Stepwise(server, log, begun, true)
      modifies `log, `sent, `polls
      ensures ok ==> |log| == |old(log)| + 1
      ensures Stepwise(server, log, begun, ok)
      ensures Open() && Follows(sent, Ones(4), k) && n <= k <= n + 1 && old(log) <= log
      ensures old(polls) < polls <= old(polls) + 3 && forall i | old(polls) <= i < polls - 1 :: !token(i)
      ensures if token(polls - 1)
              then !ok && k == (if polls == old(polls) + 1 then n else n + 1)
                   && used == (if polls == old(polls) + 3 then 0 else n + 1)
              else k == n + 1 && if ok then polls == old(polls) + 3 else used == k && !AllHelpful(server, log, begun)
      ensures AllHelpful(server, log, begun) ==> AllHelpful(server, old(log), begun)
      ensures Said(log, begun) == Said(old(log), begun) + if k == n then [] else [QueryInfo(h, info)]
      ensures Granted(server, log, begun) == Granted(server, old(log), begun)
    {
      hide *;
      StepwiseStart(server, log, begun);
      OnesAre(4);
      var reply;
      ok, reply, k := Exchange(id, 1, QueryInfo(h, info), Ones(4), n);
      used := count;
      if !ok { return; }
      StepwiseStart(server, log, begun);
      var cancelled := Poll();
      if cancelled { return false, 0, k; }
      ok := reply.payloadDecodes;
    }

    /** A stat from its open file on. */
    method StatOpened(path: string, h: FileId, messageId: nat) returns (ok: bool, used: nat, ghost k: nat)
      requires Open() && messageId == start && Follows(sent, Ones(4), 1)
      requires Said(log, begun) == [Create(path)] && Granted(server, log, begun) == h
      requires Stepwise(server, log, begun, true)
      modifies `log, `sent, `polls
      ensures ok ==> polls == old(polls) + 8 && |log| == |old(log)| + 3
      ensures Stepwise(server, log, begun, ok)
      ensures old(polls) < polls && forall i | old(polls) <= i < polls - 1 :: !token(i)
      ensures if token(polls - 1) then !ok else ok || !AllHelpful(server, log, begun)
      ensures Open() && Follows(sent, Ones(4), k) && used <= 4 && old(log) <= log
      ensures if token(polls - 1)
              then polls - old(polls) <= 8 && Stop(k, used) == STAT_STOPS[polls - old(polls) + 1]
              else 2 <= k == used <= 4 && (ok ==> k == 4 && polls == old(polls) + 8)
      ensures Granted(server, log, begun) == h
      ensures var script := [Create(path), QueryInfo(h, Basic), QueryInfo(h, Standard), Close(h)];
              Said(log, begun) <= script && (ok ==> Said(log, begun) == script)
    {
      hide *;
      StepwiseStart(server, log, begun);
      StopTables();
      OnesAre(4);
      ok, used, k := StatQuery(messageId + 1, 2, h, Basic, 1);
      if !ok { return; }
      ok, used, k := StatQuery(messageId + 2, 3, h, Standard, 2);
      if !ok { return; }
      var close;
      ok, close, k := Exchange(messageId + 3, 1, Close(h), Ones(4), 3);
      used := 4;
    }

    /** RemoteStatReader.stat: what it has sent and what it reports, by the poll that
        said cancelled. */
    method StatSteps(path: string, messageId: nat) returns (ok: bool, used: nat, ghost k: nat)
      requires Open() && sent == [] && messageId == start && Said(log, begun) == []
      requires Stepwise(server, log, begun, true)
      modifies `log, `sent, `polls
      ensures ok ==> polls == old(polls) + 10 && |log| == |old(log)| + 4
      ensures Stepwise(server, log, begun, ok)
      ensures old(polls) <= polls && forall i | old(polls) <= i < polls - 1 :: !token(i)
      ensures if polls > old(polls) && token(polls - 1) then !ok else ok || !AllHelpful(server, log, begun)
      ensures Open() && Follows(sent, Ones(4), k) && used <= 4
      ensures if polls > old(polls) && token(polls - 1)
              then polls - old(polls) <= 10 && Stop(k, used) == STAT_STOPS[polls - old(polls) - 1]
              else 1 <= k == used <= 4 && (ok ==> k == 4 && polls == old(polls) + 10)
      ensures old(log) <= log
      ensures var h := Granted(server, log, begun);
              var script := [Create(path), QueryInfo(h, Basic), QueryInfo(h, Standard), Close(h)];
              Said(log, begun) <= script && (ok ==> Said(log, begun) == script)
    {
      hide *;
      StepwiseStart(server, log, begun);
      StopTables();
      OnesAre(4);
      NoneSent(Ones(4));
      k := 0;
      var cancelled := Poll();
      if cancelled { return false, 0, k; }
      var create := TransmitNext(messageId, 1, Create(path), Ones(4), 0);
      k := 1;
      if !create.delivered { return false, 1, k; }
      cancelled := Poll();
      if cancelled { return false, 0, k; }
      if !create.accepted { return false, 1, k; }
      ok, used, k := StatOpened(path, create.fileId, messageId);
    }

    method Stat(path: string) returns (ok: bool)
      requires Valid()
      modifies this
      ensures Valid() && Ended(server, token, State(old(polls), old(log), old(run), old(history)),
                                State(polls, log, run, history), StatObject, ok)
      ensures old(log) <= log
      ensures var h := Granted(server, log, |old(log)|);
              var script := [Create(path), QueryInfo(h, Basic), QueryInfo(h, Standard), Close(h)];
              Said(log, |old(log)|) <= script && (ok ==> Said(log, |old(log)|) == script)
      ensures ok ==> polls == old(polls) + 10
    {
      hide *;
      StartOf();
      ghost var polled := polls;
      var used;
      ghost var k;
      ok, used, k := StatSteps(path, nextMessageId);
      nextMessageId := nextMessageId + used;
      ghost var stop := if polls > polled && token(polls - 1) then polls - polled else 0;
      StopTables();
      ReportedIs(k, used, 4, STAT_STOPS, ok, stop);
      PlanPossible(StatObject, ok, stop, sent, Ones(4), k, used);
      AskedIs(StatObject, ok, polls > polled && token(polls - 1), polls - polled, |log| - |old(log)|);
      Commit(StatObject, ok, used, polled, old(log));
    }

    /** A metadata operation from its open file on. */
    method MetadataOpened(path: string, h: FileId, middle: Middle, messageId: nat)
        returns (ok: bool, used: nat, ghost k: nat)
      requires Open() && messageId == start && Follows(sent, Ones(3), 1)
      requires Said(log, begun) == [Create(path)] && Granted(server, log, begun) == h
      requires Stepwise(server, log, begun, true)
      modifies `log, `sent, `polls
      ensures ok ==> polls == old(polls) + 4 && |log| == |old(log)| + 2
      ensures Stepwise(server, log, begun, ok)
      ensures old(polls) < polls && forall i | old(polls) <= i < polls - 1 :: !token(i)
      ensures if token(polls - 1) then !ok else ok || !AllHelpful(server, log, begun)
      ensures Open() && Follows(sent, Ones(3), k) && used <= 3 && old(log) <= log && Granted(server, log, begun) == h
      ensures if token(polls - 1)
              then polls - old(polls) <= 4 && Stop(k, used) == METADATA_STOPS[polls - old(polls) + 1]
              else 2 <= k == used <= 3 && (ok ==> k == 3)
      ensures var script := [Create(path), MiddleBody(middle, h), Close(h)];
              Said(log, begun) <= script && (ok ==> Said(log, begun) == script)
    {
      hide *;
      StepwiseStart(server, log, begun);
      StopTables();
      OnesAre(3);
      var reply, close: Reply;
      ok, reply, k := Exchange(messageId + 1, 1, MiddleBody(middle, h), Ones(3), 1);
      if !ok { return false, 2, k; }
      StepwiseStart(server, log, begun);
      MiddleQueries(FullEa, h);
      if middle == QueryOf(FullEa) && !reply.payloadDecodes { return false, 2, k; }
      ok, close, k := Exchange(messageId + 2, 1, Close(h), Ones(3), 2);
      used := 3;
    }

    /** The five operations of RemoteMetadataOperator: open, set or query, close.
        The EA listing also decodes what it queried. */
    method MetadataSteps(path: string, middle: Middle, messageId: nat) returns (ok: bool, used: nat, ghost k: nat)
      requires Open() && sent == [] && messageId == start && Said(log, begun) == []
      requires Stepwise(server, log, begun, true)
      modifies `log, `sent, `polls
      ensures ok ==> polls == old(polls) + 6 && |log| == |old(log)| + 3
      ensures Stepwise(server, log, begun, ok)
      ensures old(polls) <= polls && forall i | old(polls) <= i < polls - 1 :: !token(i)
      ensures if polls > old(polls) && token(polls - 1) then !ok else ok || !AllHelpful(server, log, begun)
      ensures Open() && Follows(sent, Ones(3), k) && used <= 3
      ensures if polls > old(polls) && token(polls - 1)
              then polls - old(polls) <= 6 && Stop(k, used) == METADATA_STOPS[polls - old(polls) - 1]
              else 1 <= k == used <= 3 && (ok ==> k == 3)
      ensures old(log) <= log
      ensures var h := Granted(server, log, begun);
              var script := [Create(path), MiddleBody(middle, h), Close(h)];
              Said(log, begun) <= script && (ok ==> Said(log, begun) == script)
    {
      hide *;
      StepwiseStart(server, log, begun);
      StopTables();
      OnesAre(3);
      NoneSent(Ones(3));
      k := 0;
      var cancelled := Poll();
      if cancelled { return false, 0, k; }
      var create := TransmitNext(messageId, 1, Create(path), Ones(3), 0);
      k := 1;
      if !create.delivered || !create.accepted { return false, 1, k; }
      cancelled := Poll();
      if cancelled { return false, 0, k; }
      ok, used, k := MetadataOpened(path, create.fileId, middle, messageId);
    }

    method MetadataOperation(path: string, middle: Middle) returns (ok: bool)
      requires Valid()
      modifies this
      ensures Valid() && Ended(server, token, State(old(polls), old(log), old(run), old(history)),
                                State(polls, log, run, history), Metadata, ok)
      ensures old(log) <= log
      ensures var h := Granted(server, log, |old(log)|);
              var script := [Create(path), MiddleBody(middle, h), Close(h)];
              Said(log, |old(log)|) <= script && (ok ==> Said(log, |old(log)|) == script)
    {
      hide *;
      StartOf();
      ghost var polled := polls;
      var used;
      ghost var k;
      ok, used, k := MetadataSteps(path, middle, nextMessageId);
      nextMessageId := nextMessageId + used;
      ghost var stop := if polls > polled && token(polls - 1) then polls - polled else 0;
      StopTables();
      ReportedIs(k, used, 3, METADATA_STOPS, ok, stop);
      PlanPossible(Metadata, ok, stop, sent, Ones(3), k, used);
      AskedIs(Metadata, ok, polls > polled && token(polls - 1), polls - polled, |log| - |old(log)|);
      Commit(Metadata, ok, used, polled, old(log));
    }

    /** RemoteDfsReferralFetcher.getReferrals */
    method GetDfsReferrals() returns (ok: bool)
      requires Valid()
      modifies this
      ensures Valid() && Ended(server, token, State(old(polls), old(log), old(run), old(history)),
                                State(polls, log, run, history), GetReferrals, ok)
      ensures old(log) <= log && Said(log, |old(log)|) <= [Ioctl(NO_FILE)]
      ensures ok ==> Said(log, |old(log)|) == [Ioctl(NO_FILE)]
    {
      hide *;
      StartOf();
      ghost var polled := polls;
      NoneSent([1]);
      StepwiseStart(server, log, begun);
      var cancelled := Poll();
      if cancelled {
        ghost var stop := if polls > polled && token(polls - 1) then polls - polled else 0;
        PlanPossible(GetReferrals, false, stop, sent, [1], 0, 0);
        AskedIs(GetReferrals, false, polls > polled && token(polls - 1), polls - polled, |log| - |old(log)|);
        Commit(GetReferrals, false, 0, polled, old(log));
        return false;
      }
      var reply := TransmitNext(nextMessageId, 1, Ioctl(NO_FILE), [1], 0);
      nextMessageId := nextMessageId + 1;
      ok := reply.delivered && reply.accepted && reply.payloadDecodes;
      ghost var stop := if polls > polled && token(polls - 1) then polls - polled else 0;
      PlanPossible(GetReferrals, ok, stop, sent, [1], 1, 1);
      AskedIs(GetReferrals, ok, polls > polled && token(polls - 1), polls - polled, |log| - |old(log)|);
      Commit(GetReferrals, ok, 1, polled, old(log));
    }

    // -------------------------------------------------------------- listings

    /** The page loop: pages are asked for until one is empty or the server says
        there are no more. */
    method ListPages(h: FileId, messageId: nat) returns (ok: bool, used: nat, found: seq<string>, ghost pages: nat)
      requires Open() && messageId == start && Steady(sent, 1) && log != []
      requires Said(log, begun) != [] && Granted(server, log, begun) == h && Gathered(server, log, begun) == []
      requires server(log).delivered && server(log).accepted && |log| == begun + 1 && ListingFollows(server, log, begun)
      requires Stepwise(server, log, begun, true)
      modifies `log, `sent, `polls
      ensures var asked, made := polls - old(polls), |log| - |old(log)|;
              if asked > 0 && token(polls - 1) then made == asked
              else if ok then asked == made else 1 <= made && made - 1 <= asked <= made
      ensures Stepwise(server, log, begun, ok)
      ensures old(polls) <= polls && forall i | old(polls) <= i < polls - 1 :: !token(i)
      ensures if polls > old(polls) && token(polls - 1) then !ok else ok || !AllHelpful(server, log, begun)
      ensures Open() && Steady(sent, used) && used == 1 + pages && old(log) <= log && Granted(server, log, begun) == h
      ensures Said(log, begun) == Said(old(log), begun) + Pages(h, pages) && (ok ==> pages >= 1)
      ensures ok ==> found == Gathered(server, log, begun)
      ensures ListingFollows(server, log, begun)
      ensures !ok && !(polls > old(polls) && token(polls - 1)) ==>
        log != [] && !(server(log).delivered && server(log).accepted)
      ensures ok ==> |log| > begun + 1 && CloseFits(server, log) && server(log).delivered && server(log).accepted
    {
      hide *;
      StepwiseStart(server, log, begun);
      ok, used, found, pages := false, 1, [], 0;
      NoPages();
      NoPagesAtEnd(log);
      var firstQuery := true;
      var more := true;
      while more
        invariant Open() && Steady(sent, used) && used == 1 + pages && old(log) <= log
        invariant polls - old(polls) == |log| - |old(log)|
        invariant old(polls) <= polls && forall i | old(polls) <= i < polls :: !token(i)
        invariant PagesAtEnd(log, pages) && pages <= pageBound + 1 && (more ==> pages <= pageBound)
        invariant Said(log, begun) != [] && Granted(server, log, begun) == h
        invariant Said(log, begun) == Said(old(log), begun) + Pages(h, pages)
        invariant found == Gathered(server, log, begun) && (if more then firstQuery == (pages == 0) else pages >= 1)
        invariant ListingFollows(server, log, begun) && log != [] && |log| == begun + 1 + pages
        invariant server(log).delivered && server(log).accepted && Stepwise(server, log, begun, true)
        invariant if more then pages == 0 || PageFits(server, log) else CloseFits(server, log)
        decreases pageBound + 1 - pages, more
      {
        SteadyPlan(sent, used);
        PagesStep(h, pages);
        ghost var before := log;
        var query := TransmitNext(messageId + used, 1, QueryDirectory(h, firstQuery), Ones(used + 1), used);
        used := used + 1;
        pages := pages + 1;
        SteadyNext(sent, used);
        PagesAtEndStep(before, log, pages);
        assert log == before + [log[|before|]];
        ListingFollowsStep(server, before, begun, log[|before|]);
        SaidMore(server, before, begun, log[|before|]);
        assert Said(log, begun) == Said(old(log), begun) + Pages(h, pages);
        if !query.delivered { return; }
        var cancelled := Poll();
        if cancelled { return; }
        if !query.accepted { return; }
        NamesOfPage(query);
        Fits(server, log);
        if query.noMoreFiles {
          more := false;
        } else {
          found := found + query.entries;
          if query.entries == [] {
            more := false;
          } else {
            PagesEnd(query, pages);
            firstQuery := false;
          }
        }
      }
      ok := true;
    }

    /** A listing from its open directory on: pages, then the close. */
    method ListOpened(path: string, h: FileId, messageId: nat)
        returns (ok: bool, used: nat, found: seq<string>, ghost pages: nat)
      requires Open() && messageId == start && Steady(sent, 1) && log != [] && |log| == begun + 1
      requires Said(log, begun) == [Create(path)] && Granted(server, log, begun) == h
      requires Gathered(server, log, begun) == [] && ListingFollows(server, log, begun)
      requires server(log).delivered && server(log).accepted && polls > 0 && !token(polls - 1)
      requires Stepwise(server, log, begun, true)
      modifies `log, `sent, `polls
      ensures Stepwise(server, log, begun, ok)
      ensures old(polls) <= polls && forall i | old(polls) <= i < polls - 1 :: !token(i)
      ensures if token(polls - 1) then !ok else ok || !AllHelpful(server, log, begun)
      ensures var asked, made := polls - old(polls), |log| - |old(log)|;
              if token(polls - 1) then made <= asked <= made + 1
              else if ok then asked == made + 1 else 1 <= made && made - 1 <= asked <= made + 1
      ensures Open() && sent == Consecutive(Ones(|sent|)) && (ok ==> used == |sent| >= 3) && sent != []
      ensures old(log) <= log && Granted(server, log, begun) == h
      ensures var script := [Create(path)] + Pages(h, pages) + [Close(h)];
              Said(log, begun) <= script && (ok ==> Said(log, begun) == script && pages >= 1)
      ensures ok ==> found == Gathered(server, log, begun)
      ensures ListingFollows(server, log, begun) && log != []
      ensures !token(polls - 1) ==> (ok <==> server(log).delivered && server(log).accepted)
    {
      hide *;
      StepwiseStart(server, log, begun);
      ok, used, found, pages := ListPages(h, messageId);
      SteadyPlan(sent, used);
      if !ok { return; }
      ghost var before := log;
      var close;
      ghost var done;
      ok, close, done := Exchange(messageId + used, 1, Close(h), Ones(used + 1), used);
      OnesGrow(sent, used);
      if done == used + 1 {
        assert log == before + [log[|before|]];
        ListingFollowsStep(server, before, begun, log[|before|]);
        SaidMore(server, before, begun, log[|before|]);
      }
      used := used + 1;
    }

    /** DirectoryLister.list: the requests follow the answers, one page after another;
        uncancelled, it fails exactly on the first answer that is no success. */
    method ListSteps(path: string, messageId: nat)
        returns (ok: bool, used: nat, found: seq<string>, ghost pages: nat)
      requires Open() && sent == [] && messageId == start && Said(log, begun) == [] && |log| == begun
      requires Gathered(server, log, begun) == []
      requires Stepwise(server, log, begun, true)
      modifies `log, `sent, `polls
      ensures var asked, made := polls - old(polls), |log| - |old(log)|;
              if asked > 0 && token(polls - 1) then made < asked <= made + 2
              else if ok then asked == made + 2 else 1 <= made <= asked <= made + 2
      ensures Stepwise(server, log, begun, ok)
      ensures old(polls) <= polls && forall i | old(polls) <= i < polls - 1 :: !token(i)
      ensures if polls > old(polls) && token(polls - 1) then !ok else ok || !AllHelpful(server, log, begun)
      ensures Open() && sent == Consecutive(Ones(|sent|)) && (ok ==> used == |sent| >= 3)
      ensures !(polls > old(polls) && token(polls - 1)) ==> sent != []
      ensures old(log) <= log
      ensures var h := Granted(server, log, begun);
              var script := [Create(path)] + Pages(h, pages) + [Close(h)];
              Said(log, begun) <= script && (ok ==> Said(log, begun) == script && pages >= 1)
      ensures ok ==> found == Gathered(server, log, begun)
      ensures ListingFollows(server, log, begun)
      ensures !ok && !(polls > old(polls) && token(polls - 1)) ==>
        log != [] && !(server(log).delivered && server(log).accepted)
      ensures ok ==> log != [] && server(log).delivered && server(log).accepted
    {
      hide *;
      StepwiseStart(server, log, begun);
      SteadyStart(sent);
      ListingStarts(server, log, begun);
      ok, used, found, pages := false, 0, [], 0;
      NoPages();
      var cancelled := Poll();
      if cancelled { return; }
      SteadyPlan(sent, 0);
      var create := TransmitNext(messageId + used, 1, Create(path), Ones(1), 0);
      used := used + 1;
      SteadyNext(sent, used);
      ListingStarts(server, log, begun);
      GatheredNothing(server, log, begun);
      if !create.delivered { return; }
      cancelled := Poll();
      if cancelled { return; }
      if !create.accepted { return; }
      ok, used, found, pages := ListOpened(path, create.fileId, messageId);
    }

    lemma PagesEnd(reply: Reply, pages: nat)
      requires Open() && log != [] && reply == server(log) && PagesAtEnd(log, pages)
      requires reply.delivered && reply.accepted && !reply.noMoreFiles && reply.entries != []
      ensures pages <= pageBound
    {
      hide Possible, Layout, Windows;
      if pages > pageBound {
        assert |log| > pageBound && forall i | |log| - pageBound - 1 <= i < |log| :: log[i].body.QueryDirectory?;
      }
    }

    /** listDirectory: all names the server served, without the dot entries. */
    method ListRemoteDirectory(path: string) returns (ok: bool, names: seq<string>, ghost pages: nat)
      requires Valid()
      modifies this
      ensures Valid() && Ended(server, token, State(old(polls), old(log), old(run), old(history)),
                                State(polls, log, run, history), ListDirectory, ok)
      ensures old(log) <= log
      ensures var h := Granted(server, log, |old(log)|);
              var script := [Create(path)] + Pages(h, pages) + [Close(h)];
              Said(log, |old(log)|) <= script && (ok ==> Said(log, |old(log)|) == script && pages >= 1)
      ensures ok ==> names == WithoutDots(Gathered(server, log, |old(log)|))
      ensures ListingFollows(server, log, |old(log)|)
      ensures SeenAt(token, old(polls), polls) == 0 ==>
        log != [] && (ok <==> server(log).delivered && server(log).accepted)
    {
      hide *;
      StartOf();
      ghost var polled := polls;
      var used, found;
      ok, used, found, pages := ListSteps(path, nextMessageId);
      if !ok { used := 3; }
      nextMessageId := nextMessageId + used;
      ghost var stop := if polls > polled && token(polls - 1) then polls - polled else 0;
      ListPossible(ok, stop, sent, used);
      SeenAtIs(token, polled, polls);
      AskedIs(ListDirectory, ok, polls > polled && token(polls - 1), polls - polled, |log| - |old(log)|);
      Commit(ListDirectory, ok, used, polled, old(log));
      names := KeepNames(found);
    }

    // ------------------------------------------------------ share enumeration

    /** An exchanger's pattern outside a plan; `unsent` if a cancellation is seen first. */
    method PipeExchange(id: nat, charge: nat, body: Body) returns (ok: bool, reply: Reply, unsent: bool)
      requires Open() && id >= start && Said(log, begun) != []
      modifies `log, `sent, `polls
      ensures ok ==> |log| == |old(log)| + 1
      ensures ok && Stepwise(server, old(log), begun, true) ==> Stepwise(server, log, begun, true)
      ensures Open() && old(log) <= log
      ensures old(polls) < polls <= old(polls) + 2 && (polls == old(polls) + 2 ==> !token(old(polls)))
      ensures unsent <==> polls == old(polls) + 1 && token(old(polls))
      ensures sent == old(sent) + if unsent then [] else [Send(id - start, charge)]
      ensures Said(log, begun) == Said(old(log), begun) + if unsent then [] else [body]
      ensures ok ==> polls == old(polls) + 2 && !token(polls - 1)
      ensures AllHelpful(server, log, begun) ==> AllHelpful(server, old(log), begun) && (ok || token(polls - 1))
      ensures AllHelpful(server, log, begun) ==> !ok || HelpfulPipe(reply, body)
      ensures Granted(server, log, begun) == Granted(server, old(log), begun)
      ensures Opened(server, log, begun) <==> Opened(server, old(log), begun)
    {
      hide *;
      reply := server(log);
      unsent := Poll();
      if unsent { return false, reply, unsent; }
      reply := Transmit(id, charge, body);
      HelpfulIs(reply, body);
      if !reply.delivered { return false, reply, unsent; }
      var cancelled := Poll();
      ok := !cancelled && reply.accepted;
    }

    /** The cleanup close: its context carries no token, so it is always sent. */
    method ClosePipe(id: nat, fileId: FileId)
      requires Open() && id >= start && Said(log, begun) != []
      modifies `log, `sent
      ensures Open() && old(log) <= log && sent == old(sent) + [Send(id - start, 1)]
      ensures AllHelpful(server, log, begun) ==> AllHelpful(server, old(log), begun)
      ensures Said(log, begun) == Said(old(log), begun) + [Close(fileId)]
      ensures Granted(server, log, begun) == Granted(server, old(log), begun)
      ensures Opened(server, log, begun) <==> Opened(server, old(log), begun)
    {
      hide *;
      var reply := Transmit(id, 1, Close(fileId));
    }

    /** Request `n` of the conversation; unless it is answered as hoped, the pipe is closed
        instead of going on, after `reached` requests of the script. A write that no
        frame can hold ends everything by exception. */
    method PipeStep(id: nat, charge: nat, body: Body, pipe: FileId,
                    ghost n: nat, ghost script: seq<Body>, ghost plan: seq<Send>, ghost polled: nat)
        returns (ok: bool, thrown: bool, reply: Reply, ghost reached: nat)
      requires Open() && id == start + n && polled + 2 * n - 1 == polls
      requires 1 <= n <= 4 && |script| == |plan| == 6 && Said(log, begun) == script[..n] && sent == plan[..n]
      requires script[n] == body && plan[n] == Send(n, charge) && script[5] == Close(pipe)
      modifies `log, `sent, `polls
      ensures ok ==> |log| == |old(log)| + 1
      ensures ok && Stepwise(server, old(log), begun, true) ==> Stepwise(server, log, begun, true)
      ensures Open() && old(log) <= log
      ensures old(polls) < polls && forall i | old(polls) <= i < polls - 1 :: !token(i)
      ensures token(polls - 1) ==> !ok && !thrown
      ensures AllHelpful(server, log, begun) && !token(polls - 1) ==>
        AllHelpful(server, old(log), begun) && (ok || thrown)
      ensures ok ==> polls == old(polls) + 2 && sent == plan[..n + 1] && Said(log, begun) == script[..n + 1]
      ensures ok ==> !(body.Write? && body.size > MAX_DATA)
      ensures thrown ==> !ok && body.Write? && body.size > MAX_DATA
      ensures thrown ==> sent == plan[..n] && Said(log, begun) == script[..n]
      ensures !ok && !thrown ==>
        && 1 <= reached <= 5 && Said(log, begun) == script[..reached] + [script[5]]
        && ClosedEarly(Footprint(sent, n + 2), plan, n, if token(polls - 1) then polls - polled else 0)
      ensures Granted(server, log, begun) == Granted(server, old(log), begun)
      ensures Opened(server, log, begun) <==> Opened(server, old(log), begun)
    {
      hide *;
      assert script[..n + 1] == script[..n] + [script[n]] && plan[..n + 1] == plan[..n] + [plan[n]];
      thrown, reply := false, server(log);
      if body.Write? && body.size > MAX_DATA {
        var cancelled := Poll();
        ok, thrown, reached := false, !cancelled, n;
        if cancelled { ClosePipe(id + 1, pipe); }
        EarlyClose(Footprint(sent, n + 2), plan, n, if token(polls - 1) then polls - polled else 0);
        return;
      }
      var unsent;
      ok, reply, unsent := PipeExchange(id, charge, body);
      PipeIs(reply, body);
      if body.Read? {
        ok := ok && reply.payloadDecodes;
      } else if body.Write? {
        ok := ok && reply.bytesCopied == body.size;
      }
      reached := if unsent then n else n + 1;
      if !ok { ClosePipe(id + 1, pipe); }
      EarlyClose(Footprint(sent, n + 2), plan, n, if token(polls - 1) then polls - polled else 0);
    }

    /** A write to the pipe and the read of its answer, as requests `n` and `n + 1`; of
        both rounds the sizes are given. */
    method PipeRound(bindSize: nat, requestSize: nat, size: nat, pipe: FileId, n: nat, id: nat,
                     ghost script: seq<Body>, ghost plan: seq<Send>, ghost polled: nat)
        returns (ok: bool, thrown: bool, used: nat, ghost reached: nat)
      requires Open() && id == start + n && polled + 2 * n - 1 == polls
      requires (n == 1 && size == bindSize) || (n == 3 && size == requestSize)
      requires plan == PipeSends(bindSize, requestSize) && |script| == |plan| == 6
      requires Said(log, begun) == script[..n] && sent == plan[..n]
      requires script[n] == Write(pipe, size) && script[n + 1] == Read(pipe, 65536) && script[5] == Close(pipe)
      requires plan[n] == Send(n, PayloadCharge(size)) && plan[n + 1] == Send(n + 1, 1)
      modifies `log, `sent, `polls
      ensures ok ==> |log| == |old(log)| + 2
      ensures ok && Stepwise(server, old(log), begun, true) ==> Stepwise(server, log, begun, true)
      ensures Open() && old(log) <= log
      ensures old(polls) < polls && forall i | old(polls) <= i < polls - 1 :: !token(i)
      ensures token(polls - 1) ==> !ok && !thrown
      ensures AllHelpful(server, log, begun) && !token(polls - 1) ==>
        AllHelpful(server, old(log), begun) && (ok || thrown)
      ensures ok ==> polls == old(polls) + 4 && size <= MAX_DATA
      ensures ok ==> sent == plan[..n + 2] && Said(log, begun) == script[..n + 2]
      ensures thrown ==> !ok && size > MAX_DATA
      ensures !ok ==> PipeEnds(Footprint(sent, if thrown then 0 else used), bindSize, requestSize, false,
                               if token(polls - 1) then polls - polled else 0)
      ensures !ok ==> 1 <= reached <= 5 && Said(log, begun) == script[..reached] + if thrown then [] else [script[5]]
      ensures Granted(server, log, begun) == Granted(server, old(log), begun)
      ensures Opened(server, log, begun) <==> Opened(server, old(log), begun)
    {
      hide *;
      var reply;
      used := n + 2;
      ok, thrown, reply, reached := PipeStep(id, PayloadCharge(size), Write(pipe, size), pipe, n, script, plan, polled);
      if !ok {
        if thrown { reached := n; }
        PipeFailed(sent, thrown, bindSize, requestSize, n, if token(polls - 1) then polls - polled else 0);
        return;
      }
      ok, thrown, reply, reached := PipeStep(id + 1, 1, Read(pipe, 65536), pipe, n + 1, script, plan, polled);
      if !ok {
        used := n + 3;
        PipeFailed(sent, false, bindSize, requestSize, n + 1, if token(polls - 1) then polls - polled else 0);
      }
    }

    /** The conversation on an opened pipe: it is closed whatever happens, unless a
        cancellation is seen just before its last close or a write cannot be framed. */
    method TalkOnPipe(pipe: FileId, bindSize: nat, requestSize: nat, messageId: nat, ghost polled: nat)
        returns (ok: bool, thrown: bool, used: nat, ghost reached: nat)
      requires Open() && messageId == start && sent == [Send(0, 1)] && polled + 1 == polls
      requires Said(log, begun) == [Create("srvsvc")]
      modifies `log, `sent, `polls
      ensures ok ==> polls == old(polls) + 10 && |log| == |old(log)| + 5
      ensures ok && Stepwise(server, old(log), begun, true) ==> Stepwise(server, log, begun, true)
      ensures old(polls) < polls && forall i | old(polls) <= i < polls - 1 :: !token(i)
      ensures if token(polls - 1) then !ok && !thrown else ok || thrown || !AllHelpful(server, log, begun)
      ensures Open() && old(log) <= log && (ok ==> used == 6)
      ensures PipeEnds(Footprint(sent, if thrown then 0 else used), bindSize, requestSize, ok,
                       if token(polls - 1) then polls - polled else 0)
      ensures thrown ==> !ok && (bindSize > MAX_DATA || requestSize > MAX_DATA)
      ensures Granted(server, log, begun) == Granted(server, old(log), begun)
      ensures Opened(server, log, begun) <==> Opened(server, old(log), begun)
      ensures var script := PipeScript(pipe, bindSize, requestSize);
              var said := Said(log, begun);
              if ok then said == script
              else
                && 1 <= reached <= 5
                && if thrown then said == script[..reached]
                   else said == script[..reached] + [Close(pipe)] || said == script[..5]
    {
      hide *;
      ghost var script, plan := PipeScript(pipe, bindSize, requestSize), PipeSends(bindSize, requestSize);
      PipeIndices(pipe, bindSize, requestSize);
      ok, thrown, used, reached :=
        PipeRound(bindSize, requestSize, bindSize, pipe, 1, messageId + 1, script, plan, polled);
      if !ok { return; }
      ok, thrown, used, reached :=
        PipeRound(bindSize, requestSize, requestSize, pipe, 3, messageId + 3, script, plan, polled);
      if !ok { return; }
      var reply, unsent;
      used, reached := 6, 5;
      ok, reply, unsent := PipeExchange(messageId + 5, 1, Close(pipe));
      PipeClosed(sent, bindSize, requestSize, ok, if token(polls - 1) then polls - polled else 0);
    }

    /** RemoteShareEnumerator.listShares */
    method ListSharesSteps(bindSize: nat, requestSize: nat, messageId: nat)
        returns (ok: bool, thrown: bool, used: nat, ghost reached: nat)
      requires Open() && sent == [] && messageId == start && Said(log, begun) == [] && !Opened(server, log, begun)
      requires Stepwise(server, log, begun, true)
      modifies `log, `sent, `polls
      ensures ok ==> polls == old(polls) + 11 && |log| == |old(log)| + 6
      ensures ok ==> Stepwise(server, log, begun, true)
      ensures old(polls) <= polls && forall i | old(polls) <= i < polls - 1 :: !token(i)
      ensures if polls > old(polls) && token(polls - 1) then !ok && !thrown
              else ok || thrown || !AllHelpful(server, log, begun)
      ensures Open() && old(log) <= log && (ok ==> used == 6)
      ensures PipeEnds(Footprint(sent, if thrown then 0 else used), bindSize, requestSize, ok,
                       if polls > old(polls) && token(polls - 1) then polls - old(polls) else 0)
      ensures thrown ==> !ok && (bindSize > MAX_DATA || requestSize > MAX_DATA)
      ensures var h := Granted(server, log, begun);
              var script := PipeScript(h, bindSize, requestSize);
              var said := Said(log, begun);
              if !Opened(server, log, begun) then !ok && said <= script[..1]
              else if ok then said == script
              else
                && 1 <= reached <= 5
                && if thrown then said == script[..reached]
                   else said == script[..reached] + [Close(h)] || said == script[..5]
    {
      hide *;
      StepwiseStart(server, log, begun);
      ok, thrown, used, reached := false, false, 0, 0;
      ghost var polled := polls;
      var cancelled := Poll();
      PipeRefused(bindSize, requestSize);
      PipeIndices(Granted(server, log, begun), bindSize, requestSize);
      if cancelled { return; }
      var create := Transmit(messageId, 1, Create("srvsvc"));
      used := 1;
      HelpfulIs(create, Create("srvsvc"));
      GoodIs(create);
      assert sent == [Send(0, 1)];
      PipeIndices(create.fileId, bindSize, requestSize);
      if !create.delivered || !create.accepted { return; }
      ok, thrown, used, reached := TalkOnPipe(create.fileId, bindSize, requestSize, messageId, polled);
    }

    method ListRemoteShares(bindSize: nat, requestSize: nat) returns (ok: bool, thrown: bool, ghost reached: nat)
      requires Valid()
      modifies this
      ensures Valid() && Ended(server, token, State(old(polls), old(log), old(run), old(history)),
                                State(polls, log, run, history), ListShares(bindSize, requestSize), ok)
      ensures old(log) <= log
      ensures thrown ==> !ok && (bindSize > MAX_DATA || requestSize > MAX_DATA)
      ensures !ok && !thrown && SeenAt(token, old(polls), polls) == 0 ==> !AllHelpful(server, log, |old(log)|)
      ensures thrown ==> nextMessageId == old(nextMessageId) && SeenAt(token, old(polls), polls) == 0
      ensures var h := Granted(server, log, |old(log)|);
              var script := PipeScript(h, bindSize, requestSize);
              var said := Said(log, |old(log)|);
              if !Opened(server, log, |old(log)|) then !ok && said <= script[..1]
              else if ok then said == script
              else
                && 1 <= reached <= 5
                && if thrown then said == script[..reached]
                   else said == script[..reached] + [Close(h)] || said == script[..5]
    {
      hide *;
      StartOf();
      ghost var polled := polls;
      var used;
      ok, thrown, used, reached := ListSharesSteps(bindSize, requestSize, nextMessageId);
      SeenAtIs(token, polled, polls);
      if thrown { used := 0; }
      nextMessageId := nextMessageId + used;
      ghost var stop := if polls > polled && token(polls - 1) then polls - polled else 0;
      SharesPossible(bindSize, requestSize, ok, stop, sent, used);
      AskedIs(ListShares(bindSize, requestSize), ok, polls > polled && token(polls - 1), polls - polled,
              |log| - |old(log)|);
      Commit(ListShares(bindSize, requestSize), ok, used, polled, old(log));
    }

    // ------------------------------------------------------ server-side copy

    /** Every request so far has its own id and one credit. */
    ghost predicate Counting()
      reads `sent, `start, `nextMessageId
    {
      sent == Consecutive(Ones(|sent|)) && nextMessageId == start + |sent|
    }

    /** One request under the next id, and what it adds to the readings of the log. */
    method SendNext(body: Body, ghost from: nat) returns (reply: Reply)
      requires Open() && Counting() && from <= |log|
      modifies `log, `sent, `nextMessageId
      ensures Open() && Counting()
      ensures log == old(log) + [Request(old(nextMessageId), 1, body)] && reply == server(log)
      ensures Said(log, from) == Said(old(log), from) + [body]
      ensures Granted(server, log, from)
           == if Said(old(log), from) == [] then reply.fileId else Granted(server, old(log), from)
      ensures |old(log)| > from ==>
        Granted(server, log, from + 1)
        == if |old(log)| == from + 1 then reply.fileId else Granted(server, old(log), from + 1)
      ensures AllHelpful(server, log, begun) ==> AllHelpful(server, old(log), begun) && HelpfulCopy(reply, body)
      ensures OpenedIn(server, log, from) == OpenedIn(server, old(log), from)
              + if body.Create? && reply.delivered && reply.accepted then multiset{reply.fileId} else multiset{}
      ensures ClosedIn(log, from) == ClosedIn(old(log), from)
              + if body.Close? then multiset{body.fileId} else multiset{}
      ensures AttemptsIn(server, log, from) == AttemptsIn(server, old(log), from)
              + if body.CopyChunk? then [Attempt(body.offset, body.length, ReportedCopy(reply, body.length))] else []
    {
      hide Open, OpenedIn, ClosedIn, AttemptsIn, Said, Granted, Gathered, PageNames, Opened, ReportedCopy, AllHelpful;
      ghost var n := |sent|;
      var id := AllocateMessageIds(1);
      reply := Transmit(id, 1, body);
      Readings(server, old(log), from, Request(id, 1, body));
      SaidMore(server, old(log), from, Request(id, 1, body));
      if |old(log)| > from {
        SaidMore(server, old(log), from + 1, Request(id, 1, body));
        SaidNothing(old(log), from + 1);
      }
      assert Consecutive(Ones(n + 1)) == Consecutive(Ones(n)) + [Send(n, 1)];
    }

    /** Opens a file without polling; on success its handle is held. */
    method OpenHeld(path: string, ghost from: nat, ghost held: multiset<FileId>) returns (ok: bool, handle: FileId)
      requires Open() && Counting() && from <= |log| && Idle(server, log, from, held)
      modifies `log, `sent, `nextMessageId
      ensures Open() && Counting() && old(log) <= log
      ensures Idle(server, log, from, if ok then held + multiset{handle} else held)
      ensures AllHelpful(server, log, begun) ==> AllHelpful(server, old(log), begun) && ok
      ensures |log| == |old(log)| + 1 && Said(log, from) == Said(old(log), from) + [Create(path)]
      ensures Said(old(log), from) == [] ==> Granted(server, log, from) == handle
      ensures Said(old(log), from) != [] ==> Granted(server, log, from) == Granted(server, old(log), from)
      ensures |old(log)| == from + 1 ==> Granted(server, log, from + 1) == handle
    {
      hide Open, Counting, OpenedIn, ClosedIn, AttemptsIn, Said, Granted, AllHelpful;
      var reply := SendNext(Create(path), from);
      ok, handle := reply.delivered && reply.accepted, reply.fileId;
    }

    /** A cleanup close: its context carries no token, so it is always sent, and the
        handle is given back whatever the answer. */
    method CloseHeld(handle: FileId, ghost from: nat, ghost held: multiset<FileId>)
      requires Open() && Counting() && from <= |log| && handle in held && Balanced(server, log, from, held)
      modifies `log, `sent, `nextMessageId
      ensures |log| == |old(log)| + 1
      ensures Open() && Counting() && old(log) <= log && Balanced(server, log, from, held - multiset{handle})
      ensures AttemptsIn(server, log, from) == AttemptsIn(server, old(log), from)
      ensures AllHelpful(server, log, begun) ==> AllHelpful(server, old(log), begun)
      ensures Said(log, from) == Said(old(log), from) + [Close(handle)]
      ensures |old(log)| > from + 1 ==>
        Granted(server, log, from) == Granted(server, old(log), from)
        && Granted(server, log, from + 1) == Granted(server, old(log), from + 1)
    {
      hide Open, Counting, OpenedIn, ClosedIn, AttemptsIn, Said, Granted, AllHelpful;
      if |old(log)| > from { SaidNothing(log, from); }
      var reply := SendNext(Close(handle), from);
      assert held == held - multiset{handle} + multiset{handle};
    }

    /** Target first, then source. */
    method CloseBoth(source: FileId, target: FileId, ghost from: nat)
      requires Open() && Counting() && from <= |log| && Balanced(server, log, from, multiset{source} + multiset{target})
      modifies `log, `sent, `nextMessageId
      ensures |log| == |old(log)| + 2
      ensures Open() && Counting() && old(log) <= log && Balanced(server, log, from, multiset{})
      ensures AttemptsIn(server, log, from) == AttemptsIn(server, old(log), from)
      ensures AllHelpful(server, log, begun) ==> AllHelpful(server, old(log), begun)
      ensures Said(log, from) == Said(old(log), from) + [Close(target), Close(source)]
      ensures |old(log)| > from + 1 ==>
        Granted(server, log, from) == Granted(server, old(log), from)
        && Granted(server, log, from + 1) == Granted(server, old(log), from + 1)
    {
      hide *;
      ghost var held := multiset{source} + multiset{target};
      CloseHeld(target, from, held);
      assert held - multiset{target} == multiset{source};
      CloseHeld(source, from, multiset{source});
      assert multiset{source} - multiset{source} == multiset{};
    }

    /** A copy from its two open files on. */
    method CopyOpened(sourcePath: string, targetPath: string, source: FileId, target: FileId, size: nat,
                      ghost from: nat)
        returns (ok: bool, progress: seq<nat>, ghost chunks: seq<Body>)
      requires Open() && Counting() && |log| == from + 2
      requires Idle(server, log, from, multiset{source} + multiset{target})
      requires Said(log, from) == [Create(sourcePath), Create(targetPath)]
      requires Granted(server, log, from) == source && Granted(server, log, from + 1) == target
      requires polls > 0 && !token(polls - 1)
      modifies `log, `sent, `nextMessageId, `polls
      ensures old(polls) <= polls && forall i | old(polls) <= i < polls - 1 :: !token(i)
      ensures if token(polls - 1) then !ok else ok || !AllHelpful(server, log, begun)
      ensures var asked, made := polls - old(polls), |log| - |old(log)|;
              if token(polls - 1) then asked >= 1 && made == asked + 2
              else if ok then (asked == 0 && made == 2) || (asked >= 1 && made == asked + 3)
              else (asked == 0 && made == 3) || (asked >= 1 && made == asked + 3)
      ensures Open() && Counting() && old(log) <= log
      ensures CopyTrace(server, log, from, size, ok, progress)
      ensures Granted(server, log, from) == source && Granted(server, log, from + 1) == target
      ensures ok ==> Said(log, from) == [Create(sourcePath), Create(targetPath)]
                                       + (if size == 0 then [] else [ResumeKey(source)] + chunks)
                                       + [Close(target), Close(source)]
                     && forall c | c in chunks ::
                          c.CopyChunk? && c.fileId == target && c.key == KeyOf(server, log, from)
    {
      hide *;
      ok, progress, chunks := false, [], [];
      IdleBalanced(server, log, from, multiset{source} + multiset{target});
      if size == 0 {
        CloseBoth(source, target, from);
        IdleAgain(server, log, from, size);
        ok := true;
        return;
      }
      ghost var before := log;
      var resume := SendNext(ResumeKey(source), from);
      CopyIs(resume, ResumeKey(source));
      ghost var keyed := log;
      KeyStays(server, log, log, from);
      BalancedStill(server, before, log, from, multiset{source} + multiset{target});
      if !resume.delivered || !resume.accepted || resume.outputLength < 24 {
        CloseBoth(source, target, from);
        IdleAgain(server, log, from, size);
        return;
      }
      ok, progress, chunks :=
        CopyChunks(source, target, resume.resumeKey, size, from, multiset{source} + multiset{target});
      CloseBoth(source, target, from);
      KeyStays(server, keyed, log, from);
      TraceOf(server, log, from, size, ok, progress);
    }

    method CopySteps(sourcePath: string, targetPath: string, size: nat)
        returns (ok: bool, progress: seq<nat>, ghost chunks: seq<Body>)
      requires Open() && sent == [] && nextMessageId == start && Said(log, |log|) == []
      modifies `log, `sent, `nextMessageId, `polls
      ensures var asked, made := polls - old(polls), |log| - |old(log)|;
              if asked > 0 && token(polls - 1)
              then made == (if asked == 1 then 0 else if asked == 2 then 2 else asked + 2)
              else if ok then (asked == 2 && made == 4) || (asked > 2 && made == asked + 3)
              else (asked == 1 && made == 1) || (asked == 2 && (made == 3 || made == 5))
                   || (asked > 2 && made == asked + 3)
      ensures old(polls) <= polls && forall i | old(polls) <= i < polls - 1 :: !token(i)
      ensures if polls > old(polls) && token(polls - 1) then !ok else ok || !AllHelpful(server, log, begun)
      ensures Open() && Counting() && old(log) <= log
      ensures CopyTrace(server, log, |old(log)|, size, ok, progress)
      ensures var s, t := Granted(server, log, |old(log)|), Granted(server, log, |old(log)| + 1);
              ok ==> Said(log, |old(log)|) == [Create(sourcePath), Create(targetPath)]
                                           + (if size == 0 then [] else [ResumeKey(s)] + chunks) + [Close(t), Close(s)]
                     && forall c | c in chunks ::
                          c.CopyChunk? && c.fileId == t && c.key == KeyOf(server, log, |old(log)|)
    {
      hide *;
      ghost var from := |log|;
      IdleFirst(server, log);
      assert Counting() by { CountingFromZero(); }
      ok, progress, chunks := false, [], [];
      var cancelled := Poll();
      if cancelled { IdleTrace(server, log, from, size); return; }
      var source, target;
      var granted;
      granted, source := OpenHeld(sourcePath, from, multiset{});
      if !granted { IdleTrace(server, log, from, size); return; }
      HeldOne(source);
      cancelled := Poll();
      if cancelled {
        IdleBalanced(server, log, from, multiset{source});
        CloseHeld(source, from, multiset{source});
        IdleAgain(server, log, from, size);
        return;
      }
      granted, target := OpenHeld(targetPath, from, multiset{source});
      if !granted {
        IdleBalanced(server, log, from, multiset{source});
        CloseHeld(source, from, multiset{source});
        IdleAgain(server, log, from, size);
        return;
      }
      ok, progress, chunks := CopyOpened(sourcePath, targetPath, source, target, size, from);
    }

    /** The chunk loop: each chunk starts where the last copied byte ended. */
    method CopyChunks(source: FileId, target: FileId, key: nat, size: nat,
                      ghost from: nat, ghost held: multiset<FileId>)
        returns (ok: bool, progress: seq<nat>, ghost chunks: seq<Body>)
      requires Open() && Counting() && from + 1 < |log| && size > 0
      requires Balanced(server, log, from, held) && AttemptsIn(server, log, from) == []
      modifies `log, `sent, `nextMessageId, `polls
      ensures polls > old(polls)
      ensures polls - old(polls) == |log| - |old(log)| + if token(polls - 1) then 1 else 0
      ensures old(polls) <= polls && forall i | old(polls) <= i < polls - 1 :: !token(i)
      ensures if polls > old(polls) && token(polls - 1) then !ok else ok || !AllHelpful(server, log, begun)
      ensures Open() && Counting() && old(log) <= log && Balanced(server, log, from, held)
      ensures Tiles(AttemptsIn(server, log, from), size)
      ensures ok ==> Copied(AttemptsIn(server, log, from)) == size
      ensures progress == Progress(AttemptsIn(server, log, from))
      ensures Said(log, from) == Said(old(log), from) + chunks
      ensures forall c | c in chunks :: c.CopyChunk? && c.fileId == target && c.key == key
      ensures Granted(server, log, from) == Granted(server, old(log), from)
              && Granted(server, log, from + 1) == Granted(server, old(log), from + 1)
    {
      hide *;
      NoAttempts(size);
      SaidNothing(log, from);
      ok, progress, chunks := false, [], [];
      var offset := 0;
      while offset < size
        invariant Open() && Counting() && old(log) <= log && Balanced(server, log, from, held)
        invariant polls - old(polls) == |log| - |old(log)| && (polls == old(polls) ==> offset == 0)
        invariant old(polls) <= polls && forall i | old(polls) <= i < polls :: !token(i)
        invariant Tiles(AttemptsIn(server, log, from), size)
        invariant forall a | a in AttemptsIn(server, log, from) :: a.copied > 0
        invariant Copied(AttemptsIn(server, log, from)) == offset <= size
        invariant progress == Progress(AttemptsIn(server, log, from))
        invariant Said(log, from) == Said(old(log), from) + chunks && Said(log, from) != []
        invariant forall c | c in chunks :: c.CopyChunk? && c.fileId == target && c.key == key
        invariant Granted(server, log, from) == Granted(server, old(log), from)
                  && Granted(server, log, from + 1) == Granted(server, old(log), from + 1)
      {
        ghost var attempts := AttemptsIn(server, log, from);
        var cancelled := Poll();
        if cancelled { return; }
        var length := if size - offset < 1048576 then size - offset else 1048576;
        ghost var before := log;
        var copied := SendNext(CopyChunk(target, key, offset, length), from);
        CopyIs(copied, CopyChunk(target, key, offset, length));
        chunks := chunks + [CopyChunk(target, key, offset, length)];
        BalancedStill(server, before, log, from, held);
        ChunkTiles(attempts, offset, length, size, copied);
        if !copied.delivered || !copied.accepted || copied.outputLength < 12
           || copied.bytesCopied == 0 || copied.bytesCopied > length {
          return;
        }
        offset := offset + copied.bytesCopied;
        progress := progress + [offset];
      }
      ok := true;
    }

    lemma CountingFromZero()
      requires sent == [] && nextMessageId == start
      ensures Counting()
    {
    }

    /** copyFileServerSide */
    method CopyFileServerSide(sourcePath: string, targetPath: string, size: nat)
        returns (ok: bool, progress: seq<nat>, ghost chunks: seq<Body>)
      requires Valid()
      modifies this
      ensures Valid() && Ended(server, token, State(old(polls), old(log), old(run), old(history)),
                                State(polls, log, run, history), CopyServerSide, ok)
      ensures old(log) <= log && CopyTrace(server, log, |old(log)|, size, ok, progress)
      ensures var s, t := Granted(server, log, |old(log)|), Granted(server, log, |old(log)| + 1);
              ok ==> Said(log, |old(log)|) == [Create(sourcePath), Create(targetPath)]
                                           + (if size == 0 then [] else [ResumeKey(s)] + chunks) + [Close(t), Close(s)]
                     && forall c | c in chunks ::
                          c.CopyChunk? && c.fileId == t && c.key == KeyOf(server, log, |old(log)|)
      ensures ok && size > 0 ==> progress != [] && progress[|progress| - 1] == size
      ensures (forall i :: !token(i)) && Obliging(server) ==> ok
    {
      hide *;
      StartOf();
      ghost var polled := polls;
      ok, progress, chunks := CopySteps(sourcePath, targetPath, size);
      CopyPossible(ok, if polls > polled && token(polls - 1) then polls - polled else 0);
      CopiedToEnd(server, log, begun, size, ok, progress);
      AskedIs(CopyServerSide, ok, polls > polled && token(polls - 1), polls - polled, |log| - |old(log)|);
      Commit(CopyServerSide, ok, |sent|, polled, old(log));
      OversizedIs(size);
      if (forall i :: !token(i)) && Obliging(server) {
        ObligedSucceeds(server, token, State(polled, old(log), old(run), old(history)),
                        State(polls, log, run, history), CopyServerSide, ok);
      }
    }

    lemma CopyPossible(ok: bool, stop: nat)
      requires Counting() && (ok ==> stop == 0)
      ensures Possible(CopyServerSide, ok, stop, Footprint(sent, |sent|)) && nextMessageId == start + |sent|
    {
    }

    // --------------------------------------------------------- whole runs

    /** Carries out one operation of any kind. */
    method Perform(c: Command) returns (ok: bool)
      requires Valid()
      modifies this
      ensures Valid() && Ended(server, token, State(old(polls), old(log), old(run), old(history)),
                                State(polls, log, run, history), c.op, ok)
    {
      hide *;
      var handle, progress, names, thrown;
      ghost var pages, chunks;
      match c.op {
        case ListDirectory => ok, names, pages := ListRemoteDirectory(c.path);
        case ReadOnce(length) => ok := ReadFileOnce(c.path, length);
        case OpenForRead => ok, handle := OpenFileForRead(c.path);
        case ReadChunk(length) => ok := ReadFileChunk(c.handle, length);
        case CloseHandle => ok := CloseFileHandle(c.handle);
        case WriteOnce(size) => ok, thrown := WriteFileOnce(c.path, size);
        case StatObject => ok := Stat(c.path);
        case Metadata => ok := MetadataOperation(c.path, c.middle);
        case CreateDirectory => ok := MakeDirectory(c.path);
        case MutateObject(quiet) => ok := Mutate(c.path, if quiet then Fsctl else SetOf(c.info));
        case Watch => ok := WatchDirectoryOnce(c.path);
        case ListShares(bindSize, requestSize) => ok, thrown, pages := ListRemoteShares(bindSize, requestSize);
        case GetReferrals => ok := GetDfsReferrals();
        case CopyServerSide => ok, progress, chunks := CopyFileServerSide(c.path, c.otherPath, c.size);
      }
    }

    /** Any sequence of operations, whatever each one's outcome. */
    method PerformAll(commands: seq<Command>)
      requires Valid() && history == []
      modifies this
      ensures Valid() && |history| == |commands|
      ensures forall i | 0 <= i < |commands| :: history[i].op == commands[i].op
      ensures AllGentle() ==> Increasing(Windows(log))
      ensures NeverCancelled() && Obliging(server) ==>
        forall i | 0 <= i < |commands| :: Oversized(commands[i].op) || history[i].ok
    {
      hide Valid;
      var i := 0;
      while i < |commands|
        invariant Valid() && 0 <= i <= |commands| && |history| == i
        invariant forall k | 0 <= k < i :: history[k].op == commands[k].op
        invariant NeverCancelled() && Obliging(server) ==>
          forall k | 0 <= k < i :: Oversized(commands[k].op) || history[k].ok
      {
        ghost var was := State(polls, log, run, history);
        var ok := Perform(commands[i]);
        if NeverCancelled() && Obliging(server) && !Oversized(commands[i].op) {
          ObligedSucceeds(server, token, was, State(polls, log, run, history), commands[i].op, ok);
        }
        i := i + 1;
      }
      if AllGentle() { WindowsNeverOverlap(this); }
    }

    /** Every operation of the run met the hypotheses of its kind. */
    ghost predicate AllGentle()
      reads `history, `run
    {
      |history| == |run| && forall i | 0 <= i < |run| ::
        && Gentle(history[i].op, history[i].ok, history[i].stop, run[i])
        && (history[i].op.ReadChunk? ==> history[i].op.length < 0x1_0000_0000)
    }
  }

  datatype Command = Command(op: Operation, path: string, otherPath: string, handle: FileId, middle: Middle, info: Info,
                             size: nat)

  /** In a run of gentle operations no two requests share an id, and ids grow in the
      order of sending. */
  lemma WindowsNeverOverlap(s: NativeSession)
    requires s.Valid() && s.AllGentle()
    ensures Increasing(Windows(s.log)) && Within(Windows(s.log), s.first, s.nextMessageId)
  {
    hide Possible, Gentle, Tidy;
    forall f | f in s.run ensures Tidy(f) {
      var i :| 0 <= i < |s.run| && s.run[i] == f;
      GentleIsTidy(s.history[i].op, s.history[i].ok, s.history[i].stop, f);
    }
    TidyRun(s.run, s.first);
    LogIsLayout(s);
  }

  lemma LogIsLayout(s: NativeSession)
    requires s.Valid()
    ensures Windows(s.log) == Layout(s.run, s.first) && s.nextMessageId == s.first + Reserved(s.run)
  {
    hide Possible, Layout, Windows, ListingsEnd;
    assert Layout(s.run, s.first) + [] == Layout(s.run, s.first);
  }

  /** Exactly when, for every run: the log's windows are disjoint and increasing if
      and only if no operation overlapped itself and every request of one ended
      before the first request of any later one. */
  lemma WindowsExactly(s: NativeSession)
    requires s.Valid()
    ensures Increasing(Windows(s.log)) <==> AllOrdered(s.run) && Separated(s.run)
  {
    LogIsLayout(s);
    RunIncreasing(s.run, s.first);
  }

  // ------------------------------------------------- runs that use an id twice

  /** Everything succeeds but the fourth request; pages do not end before it. */
  function FailFourth(log: seq<Request>): Reply {
    Reply(true, |log| != 4, true, 1, if |log| <= 4 then ["a"] else [], false, 32, 0, 0)
  }

  /** Everything is answered helpfully; a listing has no pages. */
  function Oblige(log: seq<Request>): Reply {
    Reply(true, true, true, 1, [], true, 32, 0,
          if log == [] then 0
          else match log[|log| - 1].body
            case Write(_, size) => size
            case CopyChunk(_, _, _, length) => length
            case _ => 0)
  }

  lemma OneFootprint(s: NativeSession)
    requires s.Valid() && |s.run| == 1
    ensures |s.log| == |s.run[0].sends|
  {
    hide Possible;
    LogIsLayout(s);
    assert s.run[..0] == [];
  }

  lemma TwoFootprints(s: NativeSession, n: nat)
    requires s.Valid() && |s.run| == 2 && n == |s.run[0].sends|
    ensures var f, g := s.run[0], s.run[1];
            && |s.log| == n + |g.sends|
            && (forall i | 0 <= i < n ::
                  s.log[i].id == s.first + f.sends[i].offset && s.log[i].charge == f.sends[i].charge)
            && (forall i | n <= i < |s.log| :: s.log[i].id == s.first + f.reserved + g.sends[i - n].offset)
  {
    hide Possible, ListingsEnd;
    LogIsLayout(s);
    var f, g := s.run[0], s.run[1];
    LayoutAppend([], f, s.first);
    LayoutAppend([f], g, s.first);
    assert [] + [f] == [f] && [f] + [g] == s.run;
    var ws := Windows(s.log);
    assert ws == Shifted(s.first, f.sends) + Shifted(s.first + f.reserved, g.sends);
    forall i | 0 <= i < |s.log| ensures s.log[i].id == ws[i].id && s.log[i].charge == ws[i].charge { }
  }

  lemma {:induction false} SaidAll(log: seq<Request>, from: nat)
    requires from <= |log|
    ensures |Said(log, from)| == |log| - from
    ensures forall i | from <= i < |log| :: Said(log, from)[i - from] == log[i].body
    decreases |log|
  {
    if |log| > from { SaidAll(log[..|log| - 1], from); }
  }

  lemma {:induction false} PagesAt(h: FileId, n: nat)
    ensures |Pages(h, n)| == n && forall i | 0 <= i < n :: Pages(h, n)[i] == QueryDirectory(h, i == 0)
  {
    if n > 0 { PagesAt(h, n - 1); }
  }

  /** What the listing's contract leaves against this server: four requests, the
      last one asking for the third page. */
  lemma FailsOnThirdPage(log: seq<Request>, path: string, h: FileId, pages: nat, ok: bool)
    requires ListingFollows(FailFourth, log, 0) && log != []
    requires var script := [Create(path)] + Pages(h, pages) + [Close(h)];
             Said(log, 0) <= script && (ok ==> Said(log, 0) == script && pages >= 1)
    requires ok <==> FailFourth(log).delivered && FailFourth(log).accepted
    ensures !ok && |log| == 4 && log[3].body.QueryDirectory?
  {
    hide Said, Pages, ListingFollows;
    PagesAt(h, pages);
    SaidAll(log, 0);
    FollowsFailFourth(log);
    assert |log| >= 3 ==> Said(log, 0)[2 - 0] == log[2].body;
    assert |log| == 4;
    assert Said(log, 0)[3 - 0] == log[3].body;
  }

  lemma FourthFails(log: seq<Request>)
    ensures |log| > 4 ==> !GoodAt(FailFourth, log, 3)
  {
  }

  lemma FollowsFailFourth(log: seq<Request>)
    requires ListingFollows(FailFourth, log, 0)
    ensures |log| <= 4
    ensures |log| >= 3 ==> !log[2].body.Close?
    ensures |log| == 4 ==> !log[3].body.Close?
  {
    FourthFails(log);
    assert |log| >= 3 ==> MoreAt(FailFourth, log, 1);
    assert |log| >= 4 ==> MoreAt(FailFourth, log, 2);
  }

  /** A run, not only its accounting: a listing whose third page fails, and the
      request after it, here an open, use the same id. */
  method ThirdPageFailureOverlaps(path: string, next: string) returns (s: NativeSession)
    ensures s.Valid() && s.server == FailFourth && s.NeverCancelled()
    ensures |s.history| == 2 && s.history[0] == Outcome(ListDirectory, false, 0)
    ensures |s.log| == 5 && s.log[3].body.QueryDirectory? && s.log[4].body == Create(next)
    ensures s.log[3].id == s.log[4].id && !Increasing(Windows(s.log))
  {
    hide ListingsEnd, ListingFollows, AllHelpful, Said, Pages, Gathered, WithoutDots, Layout;
    assert ListingsEnd(FailFourth, 4) by { FailFourthEnds(); }
    s := new NativeSession(FailFourth, i => false, 1, 4);
    var ok, names;
    ghost var pages;
    ok, names, pages := s.ListRemoteDirectory(path);
    FailsOnThirdPage(s.log, path, Granted(s.server, s.log, 0), pages, ok);
    OneFootprint(s);
    ghost var listed := s.log;
    var handle;
    ok, handle := s.OpenFileForRead(next);
    OneMoreRequest(listed, s.log, next);
    TwoFootprints(s, 4);
    SecondUses(s.log, 3);
  }

  /** The same for a stat whose second poll says cancelled, against a server that
      answers everything: it has sent its open and reports nothing. */
  method StoppedStatOverlaps(path: string, next: string) returns (s: NativeSession)
    ensures s.Valid() && s.server == Oblige && forall i :: s.token(i) <==> i == 1
    ensures |s.history| == 2 && s.history[0] == Outcome(StatObject, false, 2) && s.history[1].op == OpenForRead
    ensures |s.log| == 2 && s.log[0].body == Create(path) && s.log[1].body == Create(next)
    ensures s.log[0].id == s.log[1].id && !Increasing(Windows(s.log))
  {
    hide ListingsEnd, AllHelpful, Helpful, Said, Layout, Obliging, Oblige, Possible, Granted;
    assert ListingsEnd(Oblige, 0) by { ObligeEnds(); }
    s := new NativeSession(Oblige, i => i == 1, 1, 0);
    var ok := s.Stat(path);
    StoppedOutcome(s.token, State(s.polls, s.log, s.run, s.history), ok);
    StoppedFootprint(s.run[0]);
    OneFootprint(s);
    ghost var was := State(s.polls, s.log, s.run, s.history);
    SaidAll(s.log, 0);
    assert Said(s.log, 0)[0 - 0] == s.log[0].body;
    var handle;
    ok, handle := s.OpenFileForRead(next);
    OpenRepeats(s, was, next, ok);
  }

  /** The same for a write of more data than a frame can hold, against a server that
      answers everything and a token that never cancels: the exception leaves the file
      open and the next id where it was. */
  method OversizedWriteOverlaps(path: string, size: nat, next: string) returns (s: NativeSession, thrown: bool)
    requires size > MAX_DATA
    ensures s.Valid() && s.server == Oblige && s.NeverCancelled() && thrown
    ensures |s.log| == 2 && s.log[0].body == Create(path) && s.log[1].body == Create(next)
    ensures s.log[0].id == s.log[1].id && !Increasing(Windows(s.log))
  {
    hide *;
    assert ListingsEnd(Oblige, 0) by { ObligeEnds(); }
    s := new NativeSession(Oblige, i => false, 1, 0);
    Starts(s);
    NeverIs(s);
    var ok;
    ok, thrown := s.WriteFileOnce(path, size);
    NeverSeen(s.token, 0, s.polls);
    ObligeObliges();
    ObligingHelps(Oblige, s.log, 0);
    OneMore(s, State(0, [], [], []), WriteOnce(size), ok);
    ThrownFootprint(s, size);
    ghost var was := State(s.polls, s.log, s.run, s.history);
    SaidAll(s.log, 0);
    assert Said(s.log, 0)[0 - 0] == s.log[0].body;
    var handle;
    ok, handle := s.OpenFileForRead(next);
    OpenRepeats(s, was, next, ok);
  }

  /** An open after one request and no id taken carries the id of that request. */
  lemma OpenRepeats(s: NativeSession, was: State, next: string, ok: bool)
    requires s.Valid() && |was.run| == |was.log| == 1
    requires Ended(s.server, s.token, was, State(s.polls, s.log, s.run, s.history), OpenForRead, ok)
    requires |was.history| == 1 && was.run[0] == Footprint([Send(0, 1)], 0)
    requires was.log <= s.log && Said(s.log, |was.log|) == [Create(next)]
    ensures |s.log| == 2 && s.log[1].body == Create(next) && s.log[0].id == s.log[1].id
    ensures !Increasing(Windows(s.log))
  {
    hide *;
    OneMoreRequest(was.log, s.log, next);
    OneMore(s, was, OpenForRead, ok);
    OpenFootprint(s.run[1], s.history[1]);
    TwoFootprints(s, 1);
    SecondUses(s.log, 0);
  }

  lemma Starts(s: NativeSession)
    requires s.Valid() && s.run == []
    ensures s.nextMessageId == s.first && State(0, [], [], []) == State(0, [], s.run, [])
  {
    hide Possible, ListingsEnd;
  }

  lemma NeverIs(s: NativeSession)
    requires forall i :: !s.token(i)
    ensures s.NeverCancelled()
  {
  }

  lemma NeverSeen(token: nat -> bool, from: nat, to: nat)
    requires forall i :: !token(i)
    ensures SeenAt(token, from, to) == 0
  {
  }

  lemma OneMore(s: NativeSession, was: State, op: Operation, ok: bool)
    requires s.Valid()
    requires Ended(s.server, s.token, was, State(s.polls, s.log, s.run, s.history), op, ok)
    ensures s.history == was.history + [Outcome(op, ok, SeenAt(s.token, was.polls, s.polls))]
    ensures was.log <= s.log && was.run <= s.run && |s.run| == |was.run| + 1 == |s.history|
    ensures var n := |was.run|; Possible(s.history[n].op, s.history[n].ok, s.history[n].stop, s.run[n])
  {
    hide Possible, ListingsEnd, AllHelpful, Stepwise, Layout, Windows, Shifted;
  }

  /** Only the second poll says cancelled: an obliged stat ends there. */
  lemma StoppedOutcome(token: nat -> bool, now: State, ok: bool)
    requires Ended(Oblige, token, State(0, [], [], []), now, StatObject, ok)
    requires (forall i :: token(i) <==> i == 1) && (ok ==> now.polls == 10)
    ensures now.history == [Outcome(StatObject, false, 2)] && |now.run| == 1
  {
    hide AllHelpful, Obliging, Oblige;
    ObligeObliges();
    ObligingHelps(Oblige, now.log, 0);
    assert token(1);
  }

  lemma StoppedFootprint(f: Footprint)
    requires Possible(StatObject, false, 2, f)
    ensures f.sends == [Send(0, 1)] && f.reserved == 0
  {
    assert STAT_STOPS[1] == Stop(1, 0);
    assert Consecutive(Ones(1)) == [Send(0, 1)];
  }

  lemma ThrownFootprint(s: NativeSession, size: nat)
    requires s.Valid() && |s.run| == 1 && s.history[0].op == WriteOnce(size) && size > MAX_DATA
    requires s.nextMessageId == s.first
    ensures |s.log| == 1 && s.run[0].sends == [Send(0, 1)] && s.run[0].reserved == 0
  {
    hide Layout, Shifted, Windows;
    LogIsLayout(s);
    assert s.run[..0] == [];
    OversizedWrite(size, s.history[0].ok, s.history[0].stop, s.run[0]);
    OneFootprint(s);
  }

  lemma OpenFootprint(f: Footprint, o: Outcome)
    requires o.op == OpenForRead && Possible(o.op, o.ok, o.stop, f)
    ensures forall i | 0 <= i < |f.sends| :: f.sends[i] == Send(i, 1)
  {
    var k :| 0 <= k <= 1 && f.sends == Consecutive([1][..k]);
  }

  lemma ObligeEnds()
    ensures ListingsEnd(Oblige, 0)
  {
  }

  lemma ObligeObliges()
    ensures Obliging(Oblige)
  {
  }

  lemma FailFourthEnds()
    ensures ListingsEnd(FailFourth, 4)
  {
  }

  lemma OneMoreRequest(before: seq<Request>, log: seq<Request>, path: string)
    requires before <= log && Said(log, |before|) == [Create(path)]
    ensures |log| == |before| + 1 && log[|before|].body == Create(path)
  {
    SaidAll(log, |before|);
    assert Said(log, |before|)[|before| - |before|] == log[|before|].body;
  }

  lemma SecondUses(log: seq<Request>, i: nat)
    requires i + 1 < |log| && log[i].id == log[i + 1].id && log[i].charge >= 1
    ensures !Increasing(Windows(log))
  {
    var ws := Windows(log);
    assert ws[i].id + ws[i].charge > ws[i + 1].id;
  }

  // --------------------------------------------------------- readings of a copy

  /** What the requests sent since `from` show of a copy of `size` bytes. */
  ghost predicate CopyTrace(server: Server, log: seq<Request>, from: nat, size: nat, ok: bool, progress: seq<nat>) {
    var attempts := AttemptsIn(server, log, from);
    && Tiles(attempts, size)
    && (ok ==> Copied(attempts) == size)
    && progress == Progress(attempts)
    && OpenedIn(server, log, from) == ClosedIn(log, from)
  }

  lemma CopiedToEnd(server: Server, log: seq<Request>, from: nat, size: nat, ok: bool, progress: seq<nat>)
    requires CopyTrace(server, log, from, size, ok, progress)
    ensures ok && size > 0 ==> progress != [] && progress[|progress| - 1] == size
  {
    ProgressIncreases(AttemptsIn(server, log, from), size);
  }

  /** End to end: after a copy that reported success, on a server that has done what
      it reported, the target starts with the first `size` bytes of the source, and is
      exactly those if it was emptied when opened. */
  lemma CopyEndToEnd(server: Server, log: seq<Request>, from: nat, size: nat, progress: seq<nat>,
                     source: bytes, target: bytes)
    requires CopyTrace(server, log, from, size, true, progress) && size <= |source|
    ensures var attempts := AttemptsIn(server, log, from);
            && Tiles(attempts, size) && Apply(attempts, source, target)[..size] == source[..size]
            && (target == [] ==> Apply(attempts, source, target) == source[..size])
  {
    CompleteCopy(AttemptsIn(server, log, from), size, source, target);
  }

  /** The handles in `held` are open: granted, and not yet closed. */
  ghost predicate Balanced(server: Server, log: seq<Request>, from: nat, held: multiset<FileId>) {
    OpenedIn(server, log, from) == ClosedIn(log, from) + held
  }

  /** The same, and nothing has been copied yet. */
  ghost predicate Idle(server: Server, log: seq<Request>, from: nat, held: multiset<FileId>) {
    Balanced(server, log, from, held) && AttemptsIn(server, log, from) == []
  }

  lemma IdleFirst(server: Server, log: seq<Request>)
    ensures Idle(server, log, |log|, multiset{})
  {
  }

  lemma HeldOne(handle: FileId)
    ensures multiset{} + multiset{handle} == multiset{handle}
    ensures multiset{handle} - multiset{handle} == multiset{}
  {
  }

  lemma IdleBalanced(server: Server, log: seq<Request>, from: nat, held: multiset<FileId>)
    requires Idle(server, log, from, held)
    ensures Balanced(server, log, from, held) && AttemptsIn(server, log, from) == []
  {
  }

  lemma BalancedStill(server: Server, before: seq<Request>, log: seq<Request>, from: nat, held: multiset<FileId>)
    requires OpenedIn(server, log, from) == OpenedIn(server, before, from) + multiset{}
    requires ClosedIn(log, from) == ClosedIn(before, from) + multiset{}
    ensures Balanced(server, before, from, held) ==> Balanced(server, log, from, held)
    ensures AttemptsIn(server, before, from) + [] == AttemptsIn(server, before, from)
  {
  }

  lemma IdleTrace(server: Server, log: seq<Request>, from: nat, size: nat)
    requires Idle(server, log, from, multiset{})
    ensures CopyTrace(server, log, from, size, false, [])
  {
  }

  lemma IdleAgain(server: Server, log: seq<Request>, from: nat, size: nat)
    requires Balanced(server, log, from, multiset{}) && AttemptsIn(server, log, from) == []
    ensures CopyTrace(server, log, from, size, false, [])
    ensures size == 0 ==> CopyTrace(server, log, from, size, true, [])
  {
  }

  lemma TraceOf(server: Server, log: seq<Request>, from: nat, size: nat, ok: bool, progress: seq<nat>)
    requires Tiles(AttemptsIn(server, log, from), size) && progress == Progress(AttemptsIn(server, log, from))
    requires ok ==> Copied(AttemptsIn(server, log, from)) == size
    requires Balanced(server, log, from, multiset{})
    ensures CopyTrace(server, log, from, size, ok, progress)
  {
  }

  lemma NoAttempts(size: nat)
    ensures Tiles([], size) && Copied([]) == 0 && Progress([]) == []
  {
  }

  /** What one more chunk request does to the tiling. */
  lemma ChunkTiles(attempts: seq<Attempt>, offset: nat, length: nat, size: nat, reply: Reply)
    requires Tiles(attempts, size) && (forall a | a in attempts :: a.copied > 0)
    requires Copied(attempts) == offset < size && length == if size - offset < 1048576 then size - offset else 1048576
    ensures var n := ReportedCopy(reply, length);
            var more := attempts + [Attempt(offset, length, n)];
            && Tiles(more, size) && Copied(more) == offset + n <= size
            && Progress(more) == Progress(attempts) + (if n > 0 then [offset + n] else [])
            && (n > 0 ==> forall a | a in more :: a.copied > 0)
    ensures ReportedCopy(reply, length) ==
            if !reply.delivered || !reply.accepted || reply.outputLength < 12 || reply.bytesCopied == 0
               || reply.bytesCopied > length then 0 else reply.bytesCopied
    ensures Progress(attempts) + [] == Progress(attempts)
  {
    hide Tiles, Progress, Copied;
    var a := Attempt(offset, length, ReportedCopy(reply, length));
    TilesAppend(attempts, a, size);
    CopiedAppend(attempts, a);
    ProgressAppend(attempts, a);
  }

  // ------------------------------------------------------- plans and outcomes

  lemma OnesAre(n: nat)
    ensures forall i | 0 <= i < n :: Ones(n)[i] == 1
  {
  }

  lemma OnesGrow(sent: seq<Send>, n: nat)
    ensures Follows(sent, Ones(n), n) ==> Follows(sent, Ones(n + 1), n)
    ensures Follows(sent, Ones(n + 1), n + 1) ==> sent == Consecutive(Ones(n + 1)) && |sent| == n + 1
    ensures Follows(sent, Ones(n), n) ==> sent == Consecutive(Ones(n)) && |sent| == n
    ensures Follows(sent, Ones(n + 1), n) ==> sent == Consecutive(Ones(n)) && |sent| == n && Follows(sent, Ones(n), n)
    ensures Ones(n + 1)[n] == 1 && (sent == [] ==> Follows(sent, Ones(0), 0) && sent == Consecutive(Ones(|sent|)))
  {
    assert Ones(n + 1)[..n] == Ones(n);
    assert Ones(n + 1)[..n + 1] == Ones(n + 1);
    assert Ones(n)[..n] == Ones(n);
  }

  /** `n` requests with consecutive ids and one credit each. */
  predicate Steady(sent: seq<Send>, n: nat) { |sent| == n && sent == Consecutive(Ones(n)) }

  lemma SteadyStart(sent: seq<Send>)
    requires sent == []
    ensures Steady(sent, 0)
  {
  }

  lemma SteadyPlan(sent: seq<Send>, n: nat)
    requires Steady(sent, n)
    ensures Follows(sent, Ones(n + 1), n) && Ones(n + 1)[n] == 1
    ensures |sent| == n && sent == Consecutive(Ones(|sent|))
  {
    assert Ones(n + 1)[..n] == Ones(n);
  }

  lemma SteadyNext(sent: seq<Send>, n: nat)
    requires Follows(sent, Ones(n), n)
    ensures Steady(sent, n) && |sent| == n && sent == Consecutive(Ones(|sent|))
  {
    assert Ones(n)[..n] == Ones(n);
  }

  lemma PlanPossible(op: Operation, ok: bool, stop: nat, s: seq<Send>, plan: seq<nat>, k: nat, reserved: nat)
    requires Follows(s, plan, k) && (ok ==> stop == 0)
    requires match op
             case ReadOnce(length) => plan == [1, PayloadCharge(length), 1] && reserved == 3 && (ok ==> k == 3)
             case OpenForRead => plan == [1] && reserved == 1
             case ReadChunk(length) => plan == [PayloadCharge(length)] && reserved == CreditCharge(length)
             case CloseHandle => plan == [1] && reserved == 1
             case StatObject => plan == Ones(4) && ReportedAs(k, reserved, 4, STAT_STOPS, ok, stop)
             case Metadata => plan == Ones(3) && ReportedAs(k, reserved, 3, METADATA_STOPS, ok, stop)
             case CreateDirectory => plan == Ones(2) && reserved == 2
             case MutateObject(_) => plan == Ones(3) && reserved == 3
             case Watch => plan == Ones(3) && reserved == 3
             case GetReferrals => plan == [1] && reserved == k
             case _ => false
    ensures Possible(op, ok, stop, Footprint(s, reserved))
  {
    hide PayloadCharge, CreditCharge;
    assert |s| == k && SentPrefix(Footprint(s, reserved), plan);
    if op.StatObject? || op.Metadata? { assert plan[..k] == Ones(k); }
  }

  lemma AskedIs(op: Operation, ok: bool, cancelled: bool, polls: nat, sent: nat)
    ensures Asked(op, ok, cancelled, polls, sent) <==>
            match op
            case OpenForRead => polls == 0 && sent == 1
            case GetReferrals => polls == 1 && sent == if cancelled then 0 else 1
            case MutateObject(true) =>
              if cancelled then 1 <= polls <= 4 && sent == polls - 1
              else if ok then polls == 4 && sent == 3 else 1 <= sent <= 3 && sent <= polls <= sent + 1
            case StatObject => ok ==> polls == 10 && sent == 4
            case Metadata => ok ==> polls == 6 && sent == 3
            case ListDirectory =>
              if cancelled then sent < polls <= sent + 2
              else if ok then polls == sent + 2 else 1 <= sent <= polls <= sent + 2
            case ListShares(_, _) => ok ==> polls == 11 && sent == 6
            case CopyServerSide =>
              if cancelled then sent == (if polls == 1 then 0 else if polls == 2 then 2 else polls + 2)
              else if ok then (polls == 2 && sent == 4) || (polls > 2 && sent == polls + 3)
              else (polls == 1 && sent == 1) || (polls == 2 && (sent == 3 || sent == 5))
                   || (polls > 2 && sent == polls + 3)
            case WriteOnce(size) =>
              if cancelled then sent == polls / 2
              else if ok then polls == 2 * sent
              else 1 <= sent && 2 * sent - 1 <= polls <= 2 * sent + if size > MAX_DATA then 1 else 0
            case _ =>
              if cancelled then sent == polls / 2
              else if ok then polls == 2 * sent else 1 <= sent && 2 * sent - 1 <= polls <= 2 * sent
  {
  }

  predicate ReportedAs(k: nat, reserved: nat, n: nat, stops: seq<Stop>, ok: bool, stop: nat) {
    if ok then k == reserved == n
    else if stop == 0 then 1 <= k == reserved <= n
    else stop <= |stops| && stops[stop - 1] == Stop(k, reserved)
  }

  lemma ReportedIs(k: nat, reserved: nat, n: nat, stops: seq<Stop>, ok: bool, stop: nat)
    ensures ReportedAs(k, reserved, n, stops, ok, stop) <==>
            if ok then k == reserved == n
            else if stop == 0 then 1 <= k == reserved <= n
            else stop <= |stops| && stops[stop - 1] == Stop(k, reserved)
  {
  }

  /** The table of a cancelled stat and that of a cancelled metadata operation. */
  lemma StopTables()
    ensures |STAT_STOPS| == 10 && |METADATA_STOPS| == 6
    ensures STAT_STOPS == [Stop(0, 0), Stop(1, 0), Stop(1, 2), Stop(2, 2), Stop(2, 0),
                           Stop(2, 3), Stop(3, 3), Stop(3, 0), Stop(3, 4), Stop(4, 4)]
    ensures METADATA_STOPS == [Stop(0, 0), Stop(1, 0), Stop(1, 2), Stop(2, 2), Stop(2, 3), Stop(3, 3)]
  {
  }

  lemma ListPossible(ok: bool, stop: nat, s: seq<Send>, used: nat)
    requires s == Consecutive(Ones(|s|)) && used == (if ok then |s| else 3)
    requires (ok ==> stop == 0 && |s| >= 3) && (stop == 0 ==> s != [])
    ensures Possible(ListDirectory, ok, stop, Footprint(s, used))
  {
  }

  /** A reply the copy goes on after. */
  predicate HelpfulCopy(reply: Reply, body: Body) {
    && reply.delivered && reply.accepted && (body.ResumeKey? ==> reply.outputLength >= 24)
    && (body.CopyChunk? && body.length > 0 ==> reply.outputLength >= 12 && 0 < reply.bytesCopied <= body.length)
  }

  lemma CopyIs(reply: Reply, body: Body)
    ensures HelpfulCopy(reply, body) <==>
            && reply.delivered && reply.accepted && (body.ResumeKey? ==> reply.outputLength >= 24)
            && (body.CopyChunk? && body.length > 0 ==> reply.outputLength >= 12 && 0 < reply.bytesCopied <= body.length)
  {
  }

  /** A reply the pipe conversation goes on after. */
  predicate HelpfulPipe(reply: Reply, body: Body) {
    (body.Read? ==> reply.payloadDecodes) && (body.Write? ==> reply.bytesCopied == body.size)
  }

  lemma PipeIs(reply: Reply, body: Body)
    ensures HelpfulPipe(reply, body) <==>
            (body.Read? ==> reply.payloadDecodes) && (body.Write? ==> reply.bytesCopied == body.size)
  {
  }

  lemma HelpfulIs(reply: Reply, body: Body)
    ensures Helpful(reply, body) ==> reply.delivered && reply.accepted && HelpfulPipe(reply, body)
    ensures Helpful(reply, body) ==> (body.Ioctl? || body.QueryInfo? ==> reply.payloadDecodes)
    ensures Helpful(reply, body) ==> (body.ResumeKey? ==> reply.outputLength >= 24)
    ensures Helpful(reply, body) ==>
      (body.CopyChunk? && body.length > 0 ==> reply.outputLength >= 12 && 0 < reply.bytesCopied <= body.length)
  {
  }

  lemma EarlyClose(f: Footprint, plan: seq<Send>, n: nat, stop: nat)
    requires |plan| == 6 && 1 <= n <= 4 && f.reserved == n + 2
    ensures ClosedEarly(f, plan, n, stop) <==>
            && (stop == 0 || stop == 2 * n || stop == 2 * n + 1)
            && f.sends == plan[..n] + (if stop == 2 * n then [] else [plan[n]]) + [Send(n + 1, 1)]
  {
  }

  /** An undisturbed enumeration: what it says, and under which ids and charges. */
  function PipeScript(pipe: FileId, bindSize: nat, requestSize: nat): (script: seq<Body>)
    ensures |script| == 6
  {
    [Create("srvsvc"), Write(pipe, bindSize), Read(pipe, 65536),
     Write(pipe, requestSize), Read(pipe, 65536), Close(pipe)]
  }

  function PipeSends(bindSize: nat, requestSize: nat): (plan: seq<Send>)
    ensures |plan| == 6
  {
    [Send(0, 1), Send(1, PayloadCharge(bindSize)), Send(2, 1),
     Send(3, PayloadCharge(requestSize)), Send(4, 1), Send(5, 1)]
  }

  lemma PipeIndices(pipe: FileId, bindSize: nat, requestSize: nat)
    ensures var script := PipeScript(pipe, bindSize, requestSize);
            && script[..1] == [Create("srvsvc")] && script[5] == Close(pipe) && script == script[..5] + [Close(pipe)]
            && script[1] == Write(pipe, bindSize) && script[2] == Read(pipe, 65536)
            && script[3] == Write(pipe, requestSize) && script[4] == Read(pipe, 65536)
    ensures var plan := PipeSends(bindSize, requestSize);
            && plan[..1] == [Send(0, 1)] && plan == plan[..5] + [Send(5, 1)]
            && plan[1] == Send(1, PayloadCharge(bindSize)) && plan[2] == Send(2, 1)
            && plan[3] == Send(3, PayloadCharge(requestSize)) && plan[4] == Send(4, 1)
  {
    hide PayloadCharge;
  }

  lemma PipePlan(bindSize: nat, requestSize: nat)
    ensures PipeSends(bindSize, requestSize)
         == [Send(0, 1), Send(1, PayloadCharge(bindSize)), Send(2, 1), Send(3, PayloadCharge(requestSize)),
             Send(4, 1), Send(5, 1)]
    ensures Consecutive(PipeCharges(bindSize, requestSize)) == PipeSends(bindSize, requestSize)
  {
    hide PayloadCharge;
  }

  lemma PipeRefused(bindSize: nat, requestSize: nat)
    ensures PipeEnds(Footprint([], 0), bindSize, requestSize, false, 1)
    ensures PipeEnds(Footprint([Send(0, 1)], 1), bindSize, requestSize, false, 0)
  {
    hide PayloadCharge;
    PipePlan(bindSize, requestSize);
  }

  /** Request `n` came to nothing, or an exception came in its place. */
  lemma PipeFailed(sent: seq<Send>, thrown: bool, bindSize: nat, requestSize: nat, n: nat, stop: nat)
    requires 1 <= n <= 4
    requires var plan := PipeSends(bindSize, requestSize);
             if thrown
             then stop == 0 && sent == plan[..n]
                  && ((n == 1 && bindSize > MAX_DATA) || (n == 3 && requestSize > MAX_DATA))
             else ClosedEarly(Footprint(sent, n + 2), plan, n, stop)
    ensures PipeEnds(Footprint(sent, if thrown then 0 else n + 2), bindSize, requestSize, false, stop)
  {
    hide PayloadCharge, ClosedEarly;
    PipePlan(bindSize, requestSize);
  }

  lemma PipeClosed(sent: seq<Send>, bindSize: nat, requestSize: nat, ok: bool, stop: nat)
    requires bindSize <= MAX_DATA && requestSize <= MAX_DATA
    requires var plan := PipeSends(bindSize, requestSize);
             sent == if stop == 10 then plan[..5] else plan
    requires if ok then stop == 0 else stop == 0 || stop == 10 || stop == 11
    ensures PipeEnds(Footprint(sent, 6), bindSize, requestSize, ok, stop)
  {
    hide PayloadCharge, ClosedEarly;
    PipePlan(bindSize, requestSize);
  }

  lemma SharesPossible(bindSize: nat, requestSize: nat, ok: bool, stop: nat, s: seq<Send>, used: nat)
    requires PipeEnds(Footprint(s, used), bindSize, requestSize, ok, stop) && (ok ==> stop == 0)
    ensures Possible(ListShares(bindSize, requestSize), ok, stop, Footprint(s, used))
    ensures Oversized(ListShares(bindSize, requestSize)) <==> bindSize > MAX_DATA || requestSize > MAX_DATA
  {
    hide PipeEnds;
  }

  lemma OversizedIs(size: nat)
    ensures Oversized(WriteOnce(size)) <==> size > MAX_DATA
    ensures !Oversized(CopyServerSide)
  {
  }

  lemma WritePossible(size: nat, ok: bool, stop: nat, s: seq<Send>, plan: seq<nat>, k: nat, reserved: nat)
    requires Follows(s, plan, k) && (ok ==> stop == 0 && k == |plan|)
    requires plan == if size == 0 then [1, 1] else [1, PayloadCharge(size), 1]
    requires if ok then reserved == |plan|
             else reserved == 3 || (reserved == 0 && size > MAX_DATA && stop == 0 && k == 1)
    requires size > MAX_DATA ==> !ok && k <= 1
    ensures Possible(WriteOnce(size), ok, stop, Footprint(s, reserved))
  {
    hide PayloadCharge;
    assert SentPrefix(Footprint(s, reserved), plan);
    if size > MAX_DATA {
      assert plan[..k] == [1][..k];
      assert SentPrefix(Footprint(s, reserved), [1]);
      assert Consecutive([1][..1]) == [Send(0, 1)];
    }
  }

  lemma ShiftedNothing(start: nat)
    ensures Shifted(start, []) == []
  {
  }
}
