/** Connection set-up: negotiation, session-setup rounds, signing key, encryption
    policy and tree connect, against an arbitrary server and token provider. */
module Connector {
  import opened Bytes
  import opened Framing
  import Signing

  datatype Policy = Required | Preferred | Disabled

  datatype Options = Options(signing: Policy, encryption: Policy, firstSessionMessageId: nat, maxRounds: u16)

  datatype Negotiated = Negotiated(dialect: Dialect, signingRequired: bool, encryptionSupported: bool, hash: bytes)

  datatype Setup = Setup(sessionId: nat, moreProcessing: bool, guest: bool, anonymous: bool, encryptData: bool)

  datatype Tree = Tree(treeId: nat, requiresEncryption: bool)

  /** One exchange: the layers it went through, the request, and the answer. */
  datatype Sent = Sent(signed: bool, encrypted: bool, payload: bytes, answer: Result<bytes>)

  type Sha512 = bytes -> Hash
  type Hash = b: bytes | |b| == 64 witness Zeros(64)

  /** Everything the connector calls: primitives, message builders and decoders,
      the token provider, and the server (a function of all it has been sent). */
  datatype Env = Env(
    primitives: Signing.Primitives,
    sha512: Sha512,
    negotiateRequest: bytes,
    setupRequest: (bytes, nat, nat) -> bytes,             // token, message id, session id
    treeRequest: (nat, nat) -> bytes,                     // message id, session id
    decodeNegotiate: bytes -> Result<(Dialect, nat, nat)>, // dialect, security mode, capabilities
    decodeSetup: bytes -> Result<Setup>,
    decodeTree: bytes -> Result<Tree>,
    initialToken: Negotiated -> Result<bytes>,
    nextToken: (Setup, nat) -> Result<bytes>,
    sessionBaseKey: Result<bytes>,
    server: (seq<Sent>, bool, bool, bytes) -> Result<bytes>)

  // ------------------------------------------------------- preauth integrity

  function UpdateHash(sha512: Sha512, hash: bytes, message: bytes): (r: Result<bytes>)
    ensures r.Ok? <==> |hash| == 64
    ensures r.Ok? ==> |r.value| == 64
  {
    if |hash| != 64 then Err(ProtocolUnsupported) else Ok(sha512(hash + message))
  }

  /** Left fold of the preauth hash over a list of messages, from 64 zero bytes. */
  function PreauthFold(sha512: Sha512, messages: seq<bytes>): (h: bytes)
    ensures |h| == 64
  {
    if messages == [] then Zeros(64)
    else sha512(PreauthFold(sha512, messages[..|messages| - 1]) + messages[|messages| - 1])
  }

  lemma FoldAppend(sha512: Sha512, messages: seq<bytes>, message: bytes)
    ensures UpdateHash(sha512, PreauthFold(sha512, messages), message) == Ok(PreauthFold(sha512, messages + [message]))
  {
    assert (messages + [message])[..|messages|] == messages;
  }

  function AnswerOf(s: Sent): bytes {
    match s.answer
    case Ok(b) => b
    case Err(_) => []
  }

  /** Requests and answers of all exchanges, in order. */
  function Conversation(sent: seq<Sent>): seq<bytes> {
    if sent == [] then []
    else
      var last := sent[|sent| - 1];
      Conversation(sent[..|sent| - 1]) + [last.payload, AnswerOf(last)]
  }

  /** The messages the signing key is bound to: everything but the final answer
      (section 3.2.5.3 of MS-SMB2). */
  function Transcript(sent: seq<Sent>): seq<bytes> {
    if sent == [] then []
    else Conversation(sent[..|sent| - 1]) + [sent[|sent| - 1].payload]
  }

  lemma ConversationAppend(sent: seq<Sent>, s: Sent)
    ensures Conversation(sent + [s]) == Conversation(sent) + [s.payload, AnswerOf(s)]
    ensures Transcript(sent + [s]) == Conversation(sent) + [s.payload]
  {
    assert (sent + [s])[..|sent|] == sent;
  }

  // ------------------------------------------------------------ key derivation

  const SIGNING_LABEL_311: bytes := [0x53, 0x4D, 0x42, 0x53, 0x69, 0x67, 0x6E, 0x69, 0x6E, 0x67, 0x4B, 0x65, 0x79, 0]
  const SIGNING_LABEL_30: bytes := [0x53, 0x4D, 0x42, 0x32, 0x41, 0x45, 0x53, 0x43, 0x4D, 0x41, 0x43, 0]
  const SIGNING_CONTEXT_30: bytes := [0x53, 0x6D, 0x62, 0x53, 0x69, 0x67, 0x6E, 0]

  /** The counter-mode KDF block all SMB3 keys come from. */
  function Kdf(p: Signing.Primitives, key: bytes, purpose: bytes, context: bytes): bytes {
    p.hmac(key, Be(1, 4) + purpose + [0] + context + Be(128, 4))[..16]
  }

  function SigningKey30(p: Signing.Primitives, sessionKey: bytes): Result<bytes> {
    if sessionKey == [] then Err(AuthenticationFailed)
    else Ok(Kdf(p, sessionKey, SIGNING_LABEL_30, SIGNING_CONTEXT_30))
  }

  function SigningKey(p: Signing.Primitives, dialect: Dialect, sessionKey: bytes, hash: bytes): Result<bytes> {
    match dialect
    case Smb311 =>
      if sessionKey == [] then Err(AuthenticationFailed)
      else if |hash| != 64 then Err(ProtocolUnsupported)
      else Ok(Kdf(p, sessionKey, SIGNING_LABEL_311, hash))
    case Smb300 => SigningKey30(p, sessionKey)
    case Smb302 => SigningKey30(p, sessionKey)
    case _ => Ok(sessionKey)
  }

  const ENCRYPTION_LABEL: bytes := [0x53, 0x4D, 0x42, 0x32, 0x41, 0x45, 0x53, 0x43, 0x43, 0x4D, 0]
  const SERVER_IN: bytes := [0x53, 0x65, 0x72, 0x76, 0x65, 0x72, 0x49, 0x6E, 0x20, 0]
  const SERVER_OUT: bytes := [0x53, 0x65, 0x72, 0x76, 0x65, 0x72, 0x4F, 0x75, 0x74, 0]

  /** Keys of the encryption layer: what is sent, what is received. */
  datatype Keys = Keys(encryption: bytes, decryption: bytes)

  function EncryptionKeys(p: Signing.Primitives, sessionKey: bytes): Keys {
    Keys(Kdf(p, sessionKey, ENCRYPTION_LABEL, SERVER_IN), Kdf(p, sessionKey, ENCRYPTION_LABEL, SERVER_OUT))
  }

  // ------------------------------------------------------------------ policy

  predicate SupportsCcm(d: Dialect) { d.Smb300? || d.Smb302? }

  predicate CanEncrypt(n: Negotiated, s: Setup) {
    n.encryptionSupported && SupportsCcm(n.dialect) && !s.guest && !s.anonymous
  }

  predicate ShouldSign(n: Negotiated, s: Setup, o: Options) {
    (n.signingRequired || !o.signing.Disabled?) && !s.guest && !s.anonymous
  }

  /** Encryption is on before the tree is first asked for. */
  predicate EncryptFirst(s: Setup, o: Options) { s.encryptData || o.encryption.Required? }

  function FirstMessageId(o: Options): nat { if o.firstSessionMessageId == 0 then 1 else o.firstSessionMessageId }

  function RoundLimit(o: Options): nat { if o.maxRounds == 0 then 1 else o.maxRounds }

  datatype Established = Established(session: Setup, hash: bytes, responsePayload: bytes, rounds: nat)

  datatype Connected = Connected(
    negotiated: Negotiated, session: Setup, tree: Tree, rounds: nat, treeRequests: nat,
    signed: bool, signingKey: bytes, encrypted: bool, keys: Keys, firstMessageId: nat)

  // ---------------------------------------------------------- negotiation

  /** What the server's answer makes of the connection (section 3.2.5.2 of MS-SMB2):
      its dialect, signing if either side requires it, encryption if the server is
      capable of it, and for SMB 3.1.1 the preauth fold over both messages. */
  ghost function NegotiatedFrom(env: Env, o: Options, s: Sent): Result<Negotiated> {
    match s.answer
    case Err(e) => Err(e)
    case Ok(b) =>
      match env.decodeNegotiate(b)
      case Err(e) => Err(e)
      case Ok((dialect, securityMode, capabilities)) =>
        Ok(Negotiated(dialect, securityMode / 2 % 2 == 1 || o.signing.Required?, capabilities / 0x40 % 2 == 1,
                      if dialect.Smb311? then PreauthFold(env.sha512, Conversation([s])) else []))
  }

  /** The connection goes on to the setup rounds. */
  predicate Admitted(env: Env, o: Options, n: Negotiated) {
    && (o.encryption.Required? ==> n.encryptionSupported && SupportsCcm(n.dialect))
    && env.initialToken(n).Ok?
  }

  // --------------------------------------------------------- setup rounds

  predicate AnswerDecodes(env: Env, s: Sent) {
    s.answer.Ok? && env.decodeSetup(AnswerOf(s)).Ok?
  }

  /** The server asks for another round. */
  predicate GoesOn(env: Env, s: Sent) {
    AnswerDecodes(env, s) && env.decodeSetup(AnswerOf(s)).value.moreProcessing
  }

  /** Session id carried by setup round `i`: that of the previous answer. */
  function SessionIdFor(env: Env, setups: seq<Sent>, i: nat): nat
    requires i <= |setups|
  {
    if i == 0 then 0
    else match env.decodeSetup(AnswerOf(setups[i - 1]))
      case Ok(s) => s.sessionId
      case Err(_) => 0
  }

  /** Token carried by setup round `i`: the provider's answer to the previous one. */
  function TokenFor(env: Env, n: Negotiated, setups: seq<Sent>, i: nat): Result<bytes>
    requires i <= |setups|
  {
    if i == 0 then env.initialToken(n)
    else match env.decodeSetup(AnswerOf(setups[i - 1]))
      case Ok(s) => env.nextToken(s, i)
      case Err(e) => Err(e)
  }

  predicate IsRound(env: Env, n: Negotiated, setups: seq<Sent>, first: nat, i: nat)
    requires i < |setups|
  {
    && TokenFor(env, n, setups, i).Ok?
    && setups[i] == Sent(false, false,
         env.setupRequest(TokenFor(env, n, setups, i).value, first + i, SessionIdFor(env, setups, i)),
         setups[i].answer)
    && (i < |setups| - 1 ==> GoesOn(env, setups[i]))
  }

  /** Setup rounds, finished or not: in the clear, at consecutive ids, each with the
      session id and the token that follow from the previous answer; a round is
      followed by another only if the server asked for it. */
  predicate SetupRequests(env: Env, n: Negotiated, setups: seq<Sent>, first: nat) {
    forall i | 0 <= i < |setups| :: IsRound(env, n, setups, first, i)
  }

  /** The last answer ended the rounds with a session. */
  predicate SetupDone(env: Env, setups: seq<Sent>) {
    && setups != [] && AnswerDecodes(env, setups[|setups| - 1])
    && !GoesOn(env, setups[|setups| - 1]) && SessionIdFor(env, setups, |setups|) != 0
  }

  /** Why rounds end without a session: no answer, one that does not decode, no token
      for the next round, the limit reached, or no session id. */
  predicate GaveUp(env: Env, o: Options, n: Negotiated, setups: seq<Sent>, code: ErrorCode) {
    setups != [] &&
    var last := setups[|setups| - 1];
    match last.answer
    case Err(e) => code == e
    case Ok(b) =>
      match env.decodeSetup(b)
      case Err(e) => code == e
      case Ok(s) =>
        if !s.moreProcessing then s.sessionId == 0 && code == InternalError
        else match env.nextToken(s, |setups|)
          case Err(e) => code == e
          case Ok(_) => |setups| == RoundLimit(o) && code == InternalError
  }

  lemma SetupRequestsAppend(env: Env, n: Negotiated, setups: seq<Sent>, first: nat, s: Sent)
    requires SetupRequests(env, n, setups, first)
    requires setups != [] ==> GoesOn(env, setups[|setups| - 1])
    requires TokenFor(env, n, setups, |setups|).Ok?
    requires s == Sent(false, false,
      env.setupRequest(TokenFor(env, n, setups, |setups|).value, first + |setups|,
                       SessionIdFor(env, setups, |setups|)), s.answer)
    ensures SetupRequests(env, n, setups + [s], first)
  {
    hide GoesOn;
    var more := setups + [s];
    forall i | 0 <= i < |more| ensures IsRound(env, n, more, first, i) {
      assert i > 0 ==> more[i - 1] == setups[i - 1];
      if i < |setups| {
        assert IsRound(env, n, setups, first, i) && more[i] == setups[i];
      } else {
        assert more[i] == s;
      }
    }
  }

  lemma NoRounds(env: Env, n: Negotiated, first: nat)
    ensures SetupRequests(env, n, [], first)
  {
  }

  /** What the last round says about the session and what would follow it. */
  lemma LastRound(env: Env, n: Negotiated, setups: seq<Sent>)
    requires setups != [] && AnswerDecodes(env, setups[|setups| - 1])
    ensures var session := env.decodeSetup(AnswerOf(setups[|setups| - 1])).value;
            && SessionIdFor(env, setups, |setups|) == session.sessionId
            && TokenFor(env, n, setups, |setups|) == env.nextToken(session, |setups|)
            && (GoesOn(env, setups[|setups| - 1]) <==> session.moreProcessing)
            && (SetupDone(env, setups) <==> !session.moreProcessing && session.sessionId != 0)
  {
  }

  // ------------------------------------------------------- keys and trees

  predicate KeyAvailable(env: Env) { env.sessionBaseKey.Ok? && env.sessionBaseKey.value != [] }

  function KeyError(env: Env): ErrorCode {
    if env.sessionBaseKey.Err? then env.sessionBaseKey.code else AuthenticationFailed
  }

  /** A signed or sign-required final answer must verify under the key. */
  predicate FinalAnswerAcceptable(p: Signing.Primitives, n: Negotiated, responsePayload: bytes, key: bytes) {
    EncodeFrame(responsePayload).Ok? &&
    (var frame := EncodeFrame(responsePayload).value;
     (DecodePayload(frame).Ok?
      && ((DecodeHeader(DecodePayload(frame).value).Ok?
           && Signing.SignedFlag(DecodeHeader(DecodePayload(frame).value).value.flags))
          || n.signingRequired))
     ==> Signing.Verify(p, frame, key, n.dialect) == Ok(true))
  }

  /** There is a signing key of this hash, and the final answer is good under it. */
  predicate CanSign(p: Signing.Primitives, n: Negotiated, sessionKey: bytes, hash: bytes, responsePayload: bytes) {
    && (Signing.UsesHmac(n.dialect) || Signing.UsesCmac(n.dialect))
    && SigningKey(p, n.dialect, sessionKey, hash).Ok?
    && FinalAnswerAcceptable(p, n, responsePayload, SigningKey(p, n.dialect, sessionKey, hash).value)
  }

  /** Why there is no such key. */
  predicate SigningFailed(p: Signing.Primitives, n: Negotiated, sessionKey: bytes, hash: bytes, responsePayload: bytes,
                          code: ErrorCode) {
    if !Signing.UsesHmac(n.dialect) && !Signing.UsesCmac(n.dialect) then code == UnsupportedCapability
    else match SigningKey(p, n.dialect, sessionKey, hash)
      case Err(e) => code == e
      case Ok(key) =>
        match EncodeFrame(responsePayload)
        case Err(e) => code == e
        case Ok(frame) =>
          match Signing.Verify(p, frame, key, n.dialect)
          case Err(e) => code == e
          case Ok(_) => code == ProtocolUnsupported
  }

  function TreeResult(env: Env, s: Sent): Result<Tree> {
    match s.answer
    case Err(e) => Err(e)
    case Ok(b) => env.decodeTree(b)
  }

  /** A refused tree connect that policy wants repeated under encryption. */
  predicate WantsRetry(env: Env, o: Options, n: Negotiated, session: Setup, s: Sent) {
    && TreeResult(env, s) == Err(PermissionDenied) && o.encryption.Preferred?
    && CanEncrypt(n, session) && !EncryptFirst(session, o)
  }

  /** The tree connects, whatever comes of them: none if encryption has to come first
      and there is no key, else one, and a second one under encryption exactly if
      the first is wanted again and there is a key. */
  predicate TreeRequests(env: Env, o: Options, n: Negotiated, session: Setup, signed: bool, firstId: nat,
                         trees: seq<Sent>) {
    if EncryptFirst(session, o) && !KeyAvailable(env) then trees == []
    else
      && 1 <= |trees| <= 2
      && trees[0] == Sent(signed, EncryptFirst(session, o), env.treeRequest(firstId, session.sessionId),
                          trees[0].answer)
      && (|trees| == 2 <==> WantsRetry(env, o, n, session, trees[0]) && KeyAvailable(env))
      && (|trees| == 2 ==> trees[1] == Sent(signed, true, env.treeRequest(firstId + 1, session.sessionId),
                                            trees[1].answer))
  }

  /** The last tree connect was granted, and the tree's own demand for encryption can
      be met. */
  predicate TreesAccepted(env: Env, n: Negotiated, session: Setup, trees: seq<Sent>) {
    trees != [] &&
    var last := trees[|trees| - 1];
    TreeResult(env, last).Ok?
    && (TreeResult(env, last).value.requiresEncryption && !last.encrypted ==>
          CanEncrypt(n, session) && KeyAvailable(env))
  }

  /** Why no tree was connected. */
  predicate TreeFailed(env: Env, o: Options, n: Negotiated, session: Setup, trees: seq<Sent>, code: ErrorCode) {
    if trees == [] then code == KeyError(env)
    else
      var last := trees[|trees| - 1];
      if |trees| == 1 && WantsRetry(env, o, n, session, last) then code == KeyError(env)
      else match TreeResult(env, last)
        case Err(e) => code == e
        case Ok(_) => code == if CanEncrypt(n, session) then KeyError(env) else UnsupportedCapability
  }

  // ------------------------------------------------ the whole conversation

  /** Negotiated, admitted, and ready for the setup rounds. */
  ghost predicate Started(env: Env, o: Options, log: seq<Sent>)
    requires log != []
  {
    NegotiatedFrom(env, o, log[0]).Ok? && Admitted(env, o, NegotiatedFrom(env, o, log[0]).value)
  }

  /** With this session and these keys the tree can be asked for. */
  ghost predicate Prepared(env: Env, o: Options, n: Negotiated, session: Setup, handshake: seq<Sent>)
    requires handshake != []
  {
    && (EncryptFirst(session, o) ==> CanEncrypt(n, session))
    && (ShouldSign(n, session, o) || EncryptFirst(session, o) ==> env.sessionBaseKey.Ok?)
    && (ShouldSign(n, session, o) ==>
          CanSign(env.primitives, n, env.sessionBaseKey.value, BoundHash(env, n, handshake),
                  AnswerOf(handshake[|handshake| - 1])))
  }

  /** The hash a signing key is derived from; other dialects take none. */
  ghost function BoundHash(env: Env, n: Negotiated, handshake: seq<Sent>): bytes {
    if n.dialect.Smb311? then PreauthFold(env.sha512, Transcript(handshake)) else []
  }

  ghost function SessionOf(env: Env, handshake: seq<Sent>): Setup
    requires handshake != [] && AnswerDecodes(env, handshake[|handshake| - 1])
  {
    env.decodeSetup(AnswerOf(handshake[|handshake| - 1])).value
  }

  /** The handshake ended with a session that can go on. */
  ghost predicate SignedOn(env: Env, o: Options, handshake: seq<Sent>)
    requires handshake != []
  {
    && Started(env, o, handshake) && SetupDone(env, handshake[1..])
    && Prepared(env, o, NegotiatedFrom(env, o, handshake[0]).value, SessionOf(env, handshake), handshake)
  }

  /** What is sent, whatever the server does: the negotiation; if it got that far,
      setup rounds; if these led to a usable session, tree connects. */
  ghost predicate Conversed(env: Env, o: Options, handshake: seq<Sent>, trees: seq<Sent>) {
    && handshake != [] && handshake[0] == Sent(false, false, env.negotiateRequest, handshake[0].answer)
    && (if !Started(env, o, handshake) then |handshake| == 1
        else
          && 1 <= |handshake| - 1 <= RoundLimit(o)
          && SetupRequests(env, NegotiatedFrom(env, o, handshake[0]).value, handshake[1..], FirstMessageId(o)))
    && if !SignedOn(env, o, handshake) then trees == []
       else
         var n, session := NegotiatedFrom(env, o, handshake[0]).value, SessionOf(env, handshake);
         TreeRequests(env, o, n, session, ShouldSign(n, session, o), FirstMessageId(o) + |handshake| - 1, trees)
  }

  /** The conversation leads to a connection. */
  ghost predicate Accepted(env: Env, o: Options, handshake: seq<Sent>, trees: seq<Sent>)
    requires handshake != []
  {
    && SignedOn(env, o, handshake)
    && TreesAccepted(env, NegotiatedFrom(env, o, handshake[0]).value, SessionOf(env, handshake), trees)
  }

  /** Why there is no connection. */
  ghost predicate FailedWith(env: Env, o: Options, handshake: seq<Sent>, trees: seq<Sent>, code: ErrorCode)
    requires handshake != []
  {
    match NegotiatedFrom(env, o, handshake[0])
    case Err(e) => code == e
    case Ok(n) =>
      if o.encryption.Required? && !(n.encryptionSupported && SupportsCcm(n.dialect)) then code == UnsupportedCapability
      else if env.initialToken(n).Err? then code == env.initialToken(n).code
      else if !SetupDone(env, handshake[1..]) then GaveUp(env, o, n, handshake[1..], code)
      else
        var session := SessionOf(env, handshake);
        if EncryptFirst(session, o) && !CanEncrypt(n, session) then code == UnsupportedCapability
        else if (ShouldSign(n, session, o) || EncryptFirst(session, o)) && env.sessionBaseKey.Err? then
          code == env.sessionBaseKey.code
        else if !Prepared(env, o, n, session, handshake) then
          SigningFailed(env.primitives, n, env.sessionBaseKey.value, BoundHash(env, n, handshake),
                        AnswerOf(handshake[|handshake| - 1]), code)
        else TreeFailed(env, o, n, session, trees, code)
  }

  /** What the connection is told to be, read off the conversation. */
  ghost predicate Describes(env: Env, o: Options, handshake: seq<Sent>, trees: seq<Sent>, c: Connected)
    requires handshake != [] && Accepted(env, o, handshake, trees)
  {
    var last := trees[|trees| - 1];
    && NegotiatedFrom(env, o, handshake[0]) == Ok(c.negotiated)
    && c.session == SessionOf(env, handshake) && TreeResult(env, last) == Ok(c.tree)
    && c.rounds == |handshake| - 1 && c.treeRequests == |trees|
    && c.signed == ShouldSign(c.negotiated, c.session, o)
    && c.encrypted == (last.encrypted || c.tree.requiresEncryption)
    && c.firstMessageId == FirstMessageId(o) + |handshake| - 1 + |trees|
    && (c.signed ==> SigningKey(env.primitives, c.negotiated.dialect, env.sessionBaseKey.value,
                                BoundHash(env, c.negotiated, handshake)) == Ok(c.signingKey))
    && (c.encrypted ==> GoodEncryptionKeys(env, c.keys))
  }

  /** Both keys of the encryption layer come from the provider's session key, one
      for each direction (section 3.1.4.2 of MS-SMB2). */
  ghost predicate GoodEncryptionKeys(env: Env, keys: Keys) {
    KeyAvailable(env)
    && keys.encryption == Kdf(env.primitives, env.sessionBaseKey.value, ENCRYPTION_LABEL, SERVER_IN)
    && keys.decryption == Kdf(env.primitives, env.sessionBaseKey.value, ENCRYPTION_LABEL, SERVER_OUT)
  }

  // --------------------------------------------------------------- the method

  class NativeConnector {
    const env: Env
    var log: seq<Sent>

    constructor (env: Env)
      ensures this.env == env && log == []
    {
      this.env := env;
      log := [];
    }

    method Exchange(signed: bool, encrypted: bool, payload: bytes) returns (answer: Result<bytes>)
      modifies this
      ensures log == old(log) + [Sent(signed, encrypted, payload, answer)]
      ensures answer == env.server(old(log), signed, encrypted, payload)
    {
      answer := env.server(log, signed, encrypted, payload);
      log := log + [Sent(signed, encrypted, payload, answer)];
    }

    /** Negotiator.negotiate */
    method Negotiate(o: Options) returns (r: Result<Negotiated>)
      requires log == []
      modifies this
      ensures |log| == 1 && log[0] == Sent(false, false, env.negotiateRequest, log[0].answer)
      ensures r == NegotiatedFrom(env, o, log[0])
    {
      var answer := Exchange(false, false, env.negotiateRequest);
      if answer.Err? { return Err(answer.code); }
      var decoded := env.decodeNegotiate(answer.value);
      if decoded.Err? { return Err(decoded.code); }
      var (dialect, securityMode, capabilities) := decoded.value;
      var hash: bytes := [];
      if dialect.Smb311? {
        ConversationAppend([], log[0]);
        FoldAppend(env.sha512, [], env.negotiateRequest);
        FoldAppend(env.sha512, [env.negotiateRequest], answer.value);
        assert [] + [log[0]] == log && [env.negotiateRequest] + [answer.value] == Conversation(log);
        assert [] + [env.negotiateRequest] == [env.negotiateRequest] && log == [log[0]];
        var updated := UpdateHash(env.sha512, Zeros(64), env.negotiateRequest);
        updated := UpdateHash(env.sha512, updated.value, answer.value);
        hash := updated.value;
      }
      r := Ok(Negotiated(dialect, securityMode / 2 % 2 == 1 || o.signing.Required?,
                         capabilities / 0x40 % 2 == 1, hash));
    }

    /** The session-setup rounds. */
    method SetUpSession(o: Options, n: Negotiated, firstToken: bytes) returns (r: Result<Established>)
      requires |log| == 1 && env.initialToken(n) == Ok(firstToken)
      requires n.dialect.Smb311? ==> n.hash == PreauthFold(env.sha512, Conversation(log))
      modifies this
      ensures 1 <= |log| - 1 <= RoundLimit(o) && log[0] == old(log)[0]
      ensures SetupRequests(env, n, log[1..], FirstMessageId(o))
      ensures r.Ok? <==> SetupDone(env, log[1..])
      ensures r.Err? ==> GaveUp(env, o, n, log[1..], r.code)
      ensures r.Ok? ==>
        && r.value.rounds == |log| - 1 && log[|log| - 1].answer == Ok(r.value.responsePayload)
        && env.decodeSetup(r.value.responsePayload) == Ok(r.value.session)
        && (n.dialect.Smb311? ==> r.value.hash == PreauthFold(env.sha512, Transcript(log)))
    {
      hide PreauthFold, SetupRequests, Conversation, Transcript, SessionIdFor, TokenFor, GoesOn, SetupDone;
      ghost var setups: seq<Sent> := [];
      var messageId := FirstMessageId(o);
      var sessionId := 0;
      var token := firstToken;
      var hash := n.hash;
      var session := Setup(0, true, false, false, false);
      var responsePayload: bytes := [];
      var round := 0;
      FirstRound(env, n);
      NoRounds(env, n, messageId);
      while session.moreProcessing
        invariant 0 <= round <= RoundLimit(o) && messageId == FirstMessageId(o) + round && round == |setups|
        invariant session.moreProcessing ==> round < RoundLimit(o) && TokenFor(env, n, setups, round) == Ok(token)
        invariant log == old(log) + setups && SetupRequests(env, n, setups, FirstMessageId(o))
        invariant setups == [] ==> session.moreProcessing
        invariant sessionId == SessionIdFor(env, setups, round)
        invariant setups != [] ==>
          setups[round - 1].answer == Ok(responsePayload) && env.decodeSetup(responsePayload) == Ok(session)
          && sessionId == session.sessionId
        invariant n.dialect.Smb311? && session.moreProcessing ==> hash == PreauthFold(env.sha512, Conversation(log))
        invariant n.dialect.Smb311? && !session.moreProcessing ==> hash == PreauthFold(env.sha512, Transcript(log))
        decreases RoundLimit(o) - round, session.moreProcessing
      {
        var request := env.setupRequest(token, messageId, sessionId);
        messageId := messageId + 1;
        ghost var before := log;
        var answer := Exchange(false, false, request);
        ghost var s := Sent(false, false, request, answer);
        if setups != [] { LastRound(env, n, setups); }
        SetupRequestsAppend(env, n, setups, FirstMessageId(o), s);
        assert log == old(log) + (setups + [s]) && log[1..] == setups + [s];
        setups := setups + [s];
        if answer.Err? { NotDone(env, setups); return Err(answer.code); }
        var decoded := env.decodeSetup(answer.value);
        if decoded.Err? { NotDone(env, setups); return Err(decoded.code); }
        session, responsePayload := decoded.value, answer.value;
        LastRound(env, n, setups);
        if n.dialect.Smb311? {
          ConversationAppend(before, s);
          FoldAppend(env.sha512, Conversation(before), request);
          FoldAppend(env.sha512, Conversation(before) + [request], answer.value);
          assert Conversation(before) + [request] + [answer.value] == Conversation(before) + [request, answer.value];
          var updated := UpdateHash(env.sha512, hash, request);
          hash := updated.value;
          if session.moreProcessing {
            updated := UpdateHash(env.sha512, hash, answer.value);
            hash := updated.value;
          }
        }
        sessionId := session.sessionId;
        round := round + 1;
        if session.moreProcessing {
          var next := env.nextToken(session, round);
          if next.Err? { return Err(next.code); }
          token := next.value;
          if round == RoundLimit(o) { return Err(InternalError); }
        }
      }
      assert log[1..] == setups;
      LastRound(env, n, setups);
      if sessionId == 0 { return Err(InternalError); }
      r := Ok(Established(session, hash, responsePayload, round));
    }

    /** The signing key, with the check of the final setup answer's signature. */
    method KeyForSigning(n: Negotiated, e: Established, sessionKey: bytes) returns (r: Result<bytes>)
      ensures r.Ok? <==> CanSign(env.primitives, n, sessionKey, e.hash, e.responsePayload)
      ensures r.Ok? ==> r == SigningKey(env.primitives, n.dialect, sessionKey, e.hash)
      ensures r.Err? ==> SigningFailed(env.primitives, n, sessionKey, e.hash, e.responsePayload, r.code)
    {
      if !Signing.UsesHmac(n.dialect) && !Signing.UsesCmac(n.dialect) { return Err(UnsupportedCapability); }
      var key := SigningKey(env.primitives, n.dialect, sessionKey, e.hash);
      if key.Err? { return key; }
      var frame := EncodeFrame(e.responsePayload);
      if frame.Err? { return Err(frame.code); }
      var payload := DecodePayload(frame.value);
      if payload.Ok? {
        var header := DecodeHeader(payload.value);
        if (header.Ok? && Signing.SignedFlag(header.value.flags)) || n.signingRequired {
          var verified := Signing.VerifyFrame(env.primitives, frame.value, key.value, n.dialect);
          if verified.Err? { return Err(verified.code); }
          if !verified.value { return Err(ProtocolUnsupported); }
        }
      }
      r := key;
    }

    /** The session key, fetched when signing or encryption will need it. */
    method SessionKey(needed: bool) returns (r: Result<bytes>)
      ensures r == if needed then env.sessionBaseKey else Ok([])
    {
      r := if needed then env.sessionBaseKey else Ok([]);
    }

    /** The lambda `enableEncryption` */
    method EnableEncryption(canEncrypt: bool, sessionKey: bytes) returns (r: Result<Keys>)
      requires sessionKey != [] ==> env.sessionBaseKey == Ok(sessionKey)
      ensures r.Ok? <==> canEncrypt && KeyAvailable(env)
      ensures r.Ok? ==> GoodEncryptionKeys(env, r.value)
      ensures r.Err? ==> r.code == if canEncrypt then KeyError(env) else UnsupportedCapability
    {
      if !canEncrypt { return Err(UnsupportedCapability); }
      var key := sessionKey;
      if key == [] {
        if env.sessionBaseKey.Err? { return Err(env.sessionBaseKey.code); }
        key := env.sessionBaseKey.value;
      }
      if key == [] { return Err(AuthenticationFailed); }
      r := Ok(EncryptionKeys(env.primitives, key));
    }

    /** The tree connects and the decisions about encryption around them. */
    method ConnectTree(o: Options, n: Negotiated, session: Setup, signed: bool, sessionKey: bytes, firstId: nat)
        returns (r: Result<(Tree, nat, bool, Keys)>, ghost trees: seq<Sent>)
      requires EncryptFirst(session, o) ==> CanEncrypt(n, session)
      requires sessionKey != [] ==> env.sessionBaseKey == Ok(sessionKey)
      modifies this
      ensures log == old(log) + trees && TreeRequests(env, o, n, session, signed, firstId, trees)
      ensures r.Ok? <==> TreesAccepted(env, n, session, trees)
      ensures r.Err? ==> TreeFailed(env, o, n, session, trees, r.code)
      ensures r.Ok? ==>
        var (tree, treeRequests, encrypted, keys) := r.value;
        && treeRequests == |trees| && TreeResult(env, trees[|trees| - 1]) == Ok(tree)
        && encrypted == (trees[|trees| - 1].encrypted || tree.requiresEncryption)
        && (encrypted ==> GoodEncryptionKeys(env, keys))
    {
      hide CanEncrypt, EncryptionKeys, KeyAvailable, KeyError, GoodEncryptionKeys;
      trees := [];
      var encrypted := false;
      var keys := Keys([], []);
      if EncryptFirst(session, o) {
        var enabled := EnableEncryption(CanEncrypt(n, session), sessionKey);
        if enabled.Err? { return Err(enabled.code), trees; }
        encrypted, keys := true, enabled.value;
      }
      var payload := env.treeRequest(firstId, session.sessionId);
      var answer := Exchange(signed, encrypted, payload);
      trees := [Sent(signed, encrypted, payload, answer)];
      var tree := TreeResult(env, Sent(signed, encrypted, payload, answer));
      var treeRequests := 1;
      if tree == Err(PermissionDenied) && o.encryption.Preferred? && CanEncrypt(n, session) && !encrypted {
        var enabled := EnableEncryption(CanEncrypt(n, session), sessionKey);
        if enabled.Err? { return Err(enabled.code), trees; }
        encrypted, keys := true, enabled.value;
        payload := env.treeRequest(firstId + 1, session.sessionId);
        answer := Exchange(signed, encrypted, payload);
        tree := TreeResult(env, Sent(signed, encrypted, payload, answer));
        treeRequests := 2;
        trees := trees + [Sent(signed, encrypted, payload, answer)];
      }
      if tree.Err? { return Err(tree.code), trees; }
      if (EncryptFirst(session, o) || tree.value.requiresEncryption) && !encrypted {
        var enabled := EnableEncryption(CanEncrypt(n, session), sessionKey);
        if enabled.Err? { return Err(enabled.code), trees; }
        encrypted, keys := true, enabled.value;
      }
      r := Ok((tree.value, treeRequests, encrypted, keys));
    }

    /** connect */
    method Connect(o: Options) returns (r: Result<Connected>, ghost handshake: seq<Sent>, ghost trees: seq<Sent>)
      requires log == []
      modifies this
      ensures log == handshake + trees && Conversed(env, o, handshake, trees)
      ensures r.Ok? <==> Accepted(env, o, handshake, trees)
      ensures r.Ok? ==> Describes(env, o, handshake, trees, r.value)
      ensures r.Err? ==> FailedWith(env, o, handshake, trees, r.code)
    {
      hide GoodEncryptionKeys, PreauthFold, SetupRequests, Conversation, Transcript, SetupDone, TreeFailed, GaveUp,
        SigningKey, SigningFailed, TreeRequests, TreesAccepted, CanEncrypt, ShouldSign, CanSign, KeyAvailable;
      trees := [];
      var negotiated := Negotiate(o);
      handshake := log;
      assert log == [log[0]];
      if negotiated.Err? { return Err(negotiated.code), handshake, trees; }
      var n := negotiated.value;
      if o.encryption.Required? && (!n.encryptionSupported || !SupportsCcm(n.dialect)) {
        return Err(UnsupportedCapability), handshake, trees;
      }
      var token := env.initialToken(n);
      if token.Err? { return Err(token.code), handshake, trees; }
      var established := SetUpSession(o, n, token.value);
      handshake := log;
      if established.Err? { return Err(established.code), handshake, trees; }
      var e := established.value;
      DoneDecodes(env, handshake);
      if EncryptFirst(e.session, o) && !CanEncrypt(n, e.session) {
        return Err(UnsupportedCapability), handshake, trees;
      }

      var signed := ShouldSign(n, e.session, o);
      var sessionKey := SessionKey(signed || EncryptFirst(e.session, o));
      if sessionKey.Err? { return Err(sessionKey.code), handshake, trees; }
      var signingKey: Result<bytes> := Ok([]);
      if signed {
        KeyIgnoresHash(env.primitives, n, sessionKey.value, e.hash, e.responsePayload);
        signingKey := KeyForSigning(n, e, sessionKey.value);
        if signingKey.Err? { return Err(signingKey.code), handshake, trees; }
      }
      var firstId := FirstMessageId(o) + e.rounds;
      var tree;
      tree, trees := ConnectTree(o, n, e.session, signed, sessionKey.value, firstId);
      if tree.Err? { return Err(tree.code), handshake, trees; }
      var (t, treeRequests, encrypted, keys) := tree.value;
      r := Ok(Connected(n, e.session, t, e.rounds, treeRequests, signed, signingKey.value, encrypted, keys,
                        firstId + treeRequests));
    }
  }

  lemma FirstRound(env: Env, n: Negotiated)
    ensures TokenFor(env, n, [], 0) == env.initialToken(n) && SessionIdFor(env, [], 0) == 0
  {
  }

  lemma NotDone(env: Env, setups: seq<Sent>)
    requires setups != [] && !AnswerDecodes(env, setups[|setups| - 1])
    ensures !SetupDone(env, setups)
  {
  }

  lemma DoneDecodes(env: Env, handshake: seq<Sent>)
    requires |handshake| > 1 && SetupDone(env, handshake[1..])
    ensures AnswerDecodes(env, handshake[|handshake| - 1])
  {
    assert handshake[1..][|handshake| - 2] == handshake[|handshake| - 1];
  }

  lemma KeyIgnoresHash(p: Signing.Primitives, n: Negotiated, sessionKey: bytes, hash: bytes, response: bytes)
    ensures !n.dialect.Smb311? ==>
      && SigningKey(p, n.dialect, sessionKey, hash) == SigningKey(p, n.dialect, sessionKey, [])
      && (CanSign(p, n, sessionKey, hash, response) <==> CanSign(p, n, sessionKey, [], response))
      && forall code ::
           SigningFailed(p, n, sessionKey, hash, response, code)
           <==> SigningFailed(p, n, sessionKey, [], response, code)
  {
    hide FinalAnswerAcceptable;
  }

  // --------------------------------------------------------- consequences

  // ---------------------------------------------- keys byte by byte

  /** Codes of an ASCII text, with the terminating zero. */
  function Ascii(text: string): (b: bytes)
    ensures |b| == |text| + 1
  {
    seq(|text|, i requires 0 <= i < |text| => text[i] as int % 128) + [0]
  }

  /** Input of the counter-mode KDF with HMAC-SHA256 (section 5.1 of NIST SP 800-108):
      the counter 1, the label, a zero byte, the context, and the length 128 in bits. */
  predicate KdfInput(m: bytes, purpose: bytes, context: bytes) {
    && |m| == 9 + |purpose| + |context|
    && m[..4] == [0, 0, 0, 1] && m[4..4 + |purpose|] == purpose && m[4 + |purpose|] == 0
    && m[5 + |purpose|..5 + |purpose| + |context|] == context
    && m[5 + |purpose| + |context|..] == [0, 0, 0, 128]
  }

  lemma KdfBytes(p: Signing.Primitives, key: bytes, purpose: bytes, context: bytes) returns (m: bytes)
    ensures KdfInput(m, purpose, context) && Kdf(p, key, purpose, context) == p.hmac(key, m)[..16]
  {
    m := Be(1, 4) + purpose + [0] + context + Be(128, 4);
    KdfNumbers();
    KdfSlices(Be(1, 4), purpose, context, Be(128, 4));
  }

  lemma KdfSlices(counter: bytes, purpose: bytes, context: bytes, length: bytes)
    requires |counter| == 4 && |length| == 4
    ensures var m := counter + purpose + [0] + context + length;
            && m[..4] == counter && m[4..4 + |purpose|] == purpose && m[4 + |purpose|] == 0
            && m[5 + |purpose|..5 + |purpose| + |context|] == context && m[5 + |purpose| + |context|..] == length
  {
  }

  lemma KdfNumbers()
    ensures Be(1, 4) == [0, 0, 0, 1] && Be(128, 4) == [0, 0, 0, 128]
  {
    assert Be(0, 3) == [0, 0, 0] by { assert Be(0, 2) == [0, 0] by { assert Be(0, 1) == [0]; } }
  }

  /** The input determines the context: different transcripts, and different directions,
      give different inputs. */
  lemma InputDetermines(m: bytes, m': bytes, purpose: bytes, context: bytes, context': bytes)
    requires KdfInput(m, purpose, context) && KdfInput(m', purpose, context') && |context| == |context'|
    ensures m == m' <==> context == context'
  {
    if context == context' {
      assert m == m[..4] + m[4..4 + |purpose|] + [m[4 + |purpose|]]
                  + m[5 + |purpose|..5 + |purpose| + |context|] + m[5 + |purpose| + |context|..];
      assert m' == m'[..4] + m'[4..4 + |purpose|] + [m'[4 + |purpose|]]
                   + m'[5 + |purpose|..5 + |purpose| + |context|] + m'[5 + |purpose| + |context|..];
    }
  }

  lemma Labels()
    ensures SIGNING_LABEL_311 == Ascii("SMBSigningKey") && SIGNING_LABEL_30 == Ascii("SMB2AESCMAC")
    ensures SIGNING_CONTEXT_30 == Ascii("SmbSign") && ENCRYPTION_LABEL == Ascii("SMB2AESCCM")
    ensures SERVER_IN == Ascii("ServerIn ") && SERVER_OUT == Ascii("ServerOut")
  {
  }

  /** The preauth hash as section 3.1.4.4.1 of MS-SMB2 builds it: 64 zero bytes, then
      each message hashed behind the hash so far. */
  ghost predicate PreauthHashes(sha512: Sha512, messages: seq<bytes>, hashes: seq<bytes>) {
    && |hashes| == |messages| + 1 && |hashes[0]| == 64 && (forall i | 0 <= i < 64 :: hashes[0][i] == 0)
    && forall i | 0 <= i < |messages| :: hashes[i + 1] == sha512(hashes[i] + messages[i])
  }

  lemma {:induction false} FoldIsLastHash(sha512: Sha512, messages: seq<bytes>) returns (hashes: seq<bytes>)
    ensures PreauthHashes(sha512, messages, hashes) && hashes[|messages|] == PreauthFold(sha512, messages)
  {
    if messages == [] {
      hashes := [Zeros(64)];
    } else {
      var n := |messages| - 1;
      var before := FoldIsLastHash(sha512, messages[..n]);
      hashes := before + [PreauthFold(sha512, messages)];
      forall i | 0 <= i < |messages| ensures hashes[i + 1] == sha512(hashes[i] + messages[i]) {
        assert i < n ==> hashes[i + 1] == before[i + 1] && messages[i] == messages[..n][i];
        assert hashes[i] == before[i];
      }
    }
  }

  /** The transcript of n exchanges: requests and answers alternate, and the last answer
      is not in it. */
  lemma {:induction false} TranscriptAt(sent: seq<Sent>, i: nat)
    requires i < |sent|
    ensures |Conversation(sent)| == 2 * |sent| && |Transcript(sent)| == 2 * |sent| - 1
    ensures Conversation(sent)[2 * i] == sent[i].payload && Conversation(sent)[2 * i + 1] == AnswerOf(sent[i])
    ensures Transcript(sent)[2 * i] == sent[i].payload
    ensures i < |sent| - 1 ==> Transcript(sent)[2 * i + 1] == AnswerOf(sent[i])
    decreases |sent|
  {
    hide AnswerOf;
    var n := |sent| - 1;
    if n > 0 { TranscriptAt(sent[..n], if i < n then i else 0); } else { assert Conversation(sent[..0]) == []; }
  }

  // ------------------------------------- consequences, in the server's terms

  /** Whatever comes of it, the handshake is bounded and in the clear, and every tree
      connect carries the signing and the encryption that policy or session ask for. */
  lemma NothingTooEarly(env: Env, o: Options, handshake: seq<Sent>, trees: seq<Sent>)
    requires Conversed(env, o, handshake, trees)
    ensures |handshake| <= 1 + (if o.maxRounds == 0 then 1 else o.maxRounds) && |trees| <= 2
    ensures forall i | 0 <= i < |handshake| :: !handshake[i].signed && !handshake[i].encrypted
    ensures trees != [] ==> |handshake| > 1 && AnswerDecodes(env, handshake[|handshake| - 1])
    ensures trees != [] && (o.encryption.Required? || SessionOf(env, handshake).encryptData) ==>
      forall i | 0 <= i < |trees| :: trees[i].encrypted
    ensures o.signing.Required? && trees != [] ==>
      var session := SessionOf(env, handshake);
      session.guest || session.anonymous || forall i | 0 <= i < |trees| :: trees[i].signed
  {
    hide CanEncrypt, TokenFor, SessionIdFor, GoesOn, Prepared;
    if |handshake| > 1 && SetupDone(env, handshake[1..]) { DoneDecodes(env, handshake); }
    forall i | 0 < i < |handshake| ensures !handshake[i].signed && !handshake[i].encrypted {
      assert IsRound(env, NegotiatedFrom(env, o, handshake[0]).value, handshake[1..], FirstMessageId(o), i - 1);
      assert handshake[1..][i - 1] == handshake[i];
    }
  }

  /** The server's answer to the negotiation, decoded. */
  function Chosen(env: Env, s: Sent): Result<(Dialect, nat, nat)> {
    match s.answer
    case Err(e) => Err(e)
    case Ok(b) => env.decodeNegotiate(b)
  }

  /** A connection is signed unless the session is a guest's or anonymous, or neither
      side asks for it; if the server chose SMB 3.1.1, the key is the start of the HMAC
      of an input that holds the fold over all messages from the negotiation to the last
      setup request, if SMB 3.0 or 3.0.2, that of a fixed input. */
  lemma TranscriptBound(env: Env, o: Options, handshake: seq<Sent>, trees: seq<Sent>, c: Connected)
      returns (m: bytes)
    requires handshake != [] && Accepted(env, o, handshake, trees) && Describes(env, o, handshake, trees, c)
    ensures Chosen(env, handshake[0]).Ok?
    ensures var (dialect, securityMode, _) := Chosen(env, handshake[0]).value;
            && (c.signed <==> (securityMode / 2 % 2 == 1 || !o.signing.Disabled?)
                              && !c.session.guest && !c.session.anonymous)
            && (c.signed ==> env.sessionBaseKey.Ok?)
            && (c.signed && dialect in {Smb300, Smb302, Smb311} ==>
                  && env.sessionBaseKey.value != []
                  && c.signingKey == env.primitives.hmac(env.sessionBaseKey.value, m)[..16])
            && (c.signed && dialect == Smb311 ==>
                  KdfInput(m, Ascii("SMBSigningKey"), PreauthFold(env.sha512, Transcript(handshake))))
            && (c.signed && dialect in {Smb300, Smb302} ==> KdfInput(m, Ascii("SMB2AESCMAC"), Ascii("SmbSign")))
            && (c.signed && dialect in {Smb202, Smb210} ==> c.signingKey == env.sessionBaseKey.value)
  {
    hide PreauthFold, Transcript, Conversation, Kdf, SetupDone, TreesAccepted, CanEncrypt, Ascii;
    var n := NegotiatedFrom(env, o, handshake[0]).value;
    Labels();
    m := [];
    if c.signed && n.dialect in {Smb300, Smb302, Smb311} {
      m := SigningInput(env.primitives, n.dialect, env.sessionBaseKey.value, BoundHash(env, n, handshake));
    }
  }

  lemma SigningInput(p: Signing.Primitives, dialect: Dialect, key: bytes, hash: bytes) returns (m: bytes)
    requires dialect in {Smb300, Smb302, Smb311} && SigningKey(p, dialect, key, hash).Ok?
    ensures SigningKey(p, dialect, key, hash) == Ok(p.hmac(key, m)[..16])
    ensures dialect == Smb311 ==> |hash| == 64 && KdfInput(m, SIGNING_LABEL_311, hash)
    ensures dialect != Smb311 ==> KdfInput(m, SIGNING_LABEL_30, SIGNING_CONTEXT_30)
  {
    hide Kdf, KdfInput;
    if dialect == Smb311 {
      m := KdfBytes(p, key, SIGNING_LABEL_311, hash);
    } else {
      m := KdfBytes(p, key, SIGNING_LABEL_30, SIGNING_CONTEXT_30);
    }
  }

  /** The two keys of an encrypted connection come from different inputs, one for each
      direction. */
  lemma DirectionsDiffer(env: Env, keys: Keys) returns (sending: bytes, receiving: bytes)
    requires GoodEncryptionKeys(env, keys)
    ensures keys.encryption == env.primitives.hmac(env.sessionBaseKey.value, sending)[..16]
    ensures keys.decryption == env.primitives.hmac(env.sessionBaseKey.value, receiving)[..16]
    ensures KdfInput(sending, Ascii("SMB2AESCCM"), Ascii("ServerIn "))
    ensures KdfInput(receiving, Ascii("SMB2AESCCM"), Ascii("ServerOut")) && sending != receiving
  {
    hide Kdf, Ascii;
    Labels();
    sending := KdfBytes(env.primitives, env.sessionBaseKey.value, ENCRYPTION_LABEL, SERVER_IN);
    receiving := KdfBytes(env.primitives, env.sessionBaseKey.value, ENCRYPTION_LABEL, SERVER_OUT);
    assert SERVER_IN[6] != SERVER_OUT[6];
    InputDetermines(sending, receiving, ENCRYPTION_LABEL, SERVER_IN, SERVER_OUT);
  }

  /** If either side requires signing, or the final setup answer has the signed flag, a
      signed connection means that this answer verified under the signing key. */
  lemma FinalAnswerVerified(env: Env, o: Options, handshake: seq<Sent>, trees: seq<Sent>, c: Connected)
    requires |handshake| > 1 && Accepted(env, o, handshake, trees) && Describes(env, o, handshake, trees, c)
    requires c.signed && Chosen(env, handshake[0]).Ok?
    ensures var (dialect, securityMode, _) := Chosen(env, handshake[0]).value;
            var answer := AnswerOf(handshake[|handshake| - 1]);
            && EncodeFrame(answer).Ok?
            && (o.signing.Required? || securityMode / 2 % 2 == 1
                || (DecodeHeader(answer).Ok? && DecodeHeader(answer).value.flags / 8 % 2 == 1) ==>
                  Signing.Verify(env.primitives, EncodeFrame(answer).value, c.signingKey, dialect) == Ok(true))
  {
    hide PreauthFold, Transcript, Conversation, Kdf, SetupDone, TreesAccepted, CanEncrypt, Signing.Verify, SigningKey,
      DecodeHeader, DecodePayload, EncodeFrame;
    var answer := AnswerOf(handshake[|handshake| - 1]);
    EncodedLength(answer);
    if EncodeFrame(answer).Ok? { FrameRoundTrip(answer); }
  }

  lemma EncodedLength(message: bytes)
    ensures EncodeFrame(message).Ok? <==> |message| <= MAX_PAYLOAD
  {
  }

  /** Required policy: success means the server chose SMB 3.0 or 3.0.2 and announced
      encryption, and the one TREE_CONNECT went through the encryption layer. */
  lemma RequiredMeansEncrypted(env: Env, o: Options, handshake: seq<Sent>, trees: seq<Sent>, c: Connected)
    requires Conversed(env, o, handshake, trees) && Accepted(env, o, handshake, trees)
    requires Describes(env, o, handshake, trees, c) && o.encryption.Required?
    ensures |trees| == 1 && trees[0].encrypted && c.encrypted
    ensures Chosen(env, handshake[0]).Ok?
    ensures var (dialect, _, capabilities) := Chosen(env, handshake[0]).value;
            (dialect.Smb300? || dialect.Smb302?) && capabilities / 0x40 % 2 == 1
    ensures !c.session.guest && !c.session.anonymous
  {
    hide PreauthFold, Conversation, SetupDone, SetupRequests;
  }

  /** Exactly when the accepted TREE_CONNECT was encrypted, and when the connection is. */
  lemma EncryptedTreeIff(env: Env, o: Options, handshake: seq<Sent>, trees: seq<Sent>, c: Connected)
    requires Conversed(env, o, handshake, trees) && Accepted(env, o, handshake, trees)
    requires Describes(env, o, handshake, trees, c)
    ensures Chosen(env, handshake[0]).Ok?
    ensures var (dialect, _, capabilities) := Chosen(env, handshake[0]).value;
            var can := capabilities / 0x40 % 2 == 1 && dialect in {Smb300, Smb302}
                       && !c.session.guest && !c.session.anonymous;
            && (trees[|trees| - 1].encrypted <==>
                  c.session.encryptData || o.encryption.Required?
                  || (o.encryption.Preferred? && can && TreeResult(env, trees[0]) == Err(PermissionDenied)))
            && (c.encrypted <==> trees[|trees| - 1].encrypted || c.tree.requiresEncryption)
            && (c.encrypted ==> can)
    ensures forall i | 0 <= i < |trees| :: trees[i].signed == c.signed
  {
    hide PreauthFold, Conversation, SetupDone, SetupRequests;
    hide SigningKey, CanSign, ShouldSign, BoundHash;
  }

  /** Whatever comes of it: a second tree connect is sent exactly if the first was denied,
      policy prefers encryption, the session can have it and does not have it yet, and
      there is a key. */
  lemma RetryExactly(env: Env, o: Options, handshake: seq<Sent>, trees: seq<Sent>)
    requires Conversed(env, o, handshake, trees) && trees != []
    ensures Chosen(env, handshake[0]).Ok? && AnswerDecodes(env, handshake[|handshake| - 1])
    ensures var (dialect, _, capabilities) := Chosen(env, handshake[0]).value;
            var session := SessionOf(env, handshake);
            |trees| == 2 <==>
            && TreeResult(env, trees[0]) == Err(PermissionDenied) && o.encryption.Preferred?
            && capabilities / 0x40 % 2 == 1 && dialect in {Smb300, Smb302} && !session.guest && !session.anonymous
            && !session.encryptData && env.sessionBaseKey.Ok? && env.sessionBaseKey.value != []
  {
    hide PreauthFold, Conversation, SetupRequests, Prepared;
    DoneDecodes(env, handshake);
  }

  /** Whatever comes of it: request `i` after the negotiation uses the `i`-th id from
      the first one on. The first setup round carries the provider's first token and no
      session id, any other the token and the session id that follow from the previous
      answer, and a tree connect the session id of the last. */
  lemma IdsConsecutive(env: Env, o: Options, handshake: seq<Sent>, trees: seq<Sent>, i: nat)
    requires Conversed(env, o, handshake, trees) && 1 <= i < |handshake| + |trees|
    ensures NegotiatedFrom(env, o, handshake[0]).Ok?
    ensures var id := (if o.firstSessionMessageId == 0 then 1 else o.firstSessionMessageId) + i - 1;
            var n := NegotiatedFrom(env, o, handshake[0]).value;
            if i == 1 then
              env.initialToken(n).Ok? && handshake[1].payload == env.setupRequest(env.initialToken(n).value, id, 0)
            else if i < |handshake| then
              && AnswerDecodes(env, handshake[i - 1])
              && var last := env.decodeSetup(AnswerOf(handshake[i - 1])).value;
                 && last.moreProcessing && env.nextToken(last, i - 1).Ok?
                 && handshake[i].payload == env.setupRequest(env.nextToken(last, i - 1).value, id, last.sessionId)
            else
              && AnswerDecodes(env, handshake[|handshake| - 1])
              && trees[i - |handshake|].payload == env.treeRequest(id, SessionOf(env, handshake).sessionId)
  {
    hide CanEncrypt, Prepared, PreauthFold, Conversation;
    if i < |handshake| {
      var n, setups := NegotiatedFrom(env, o, handshake[0]).value, handshake[1..];
      assert IsRound(env, n, setups, FirstMessageId(o), i - 1) && setups[i - 1] == handshake[i];
      if i > 1 {
        assert IsRound(env, n, setups, FirstMessageId(o), i - 2) && setups[i - 2] == handshake[i - 1];
      }
    } else {
      DoneDecodes(env, handshake);
      assert i - |handshake| == 0 || i - |handshake| == 1;
    }
  }
}
