/**
  A blocking daemon call (src/daemon/blocking.rs). Every attempt connects, shakes hands and only
  then writes the request; a failure is labelled by whether the request may have been delivered,
  and the retry loop must not repeat a delivered request unless the method allows it.

  What the operating system and the daemon answer is given by a script per attempt, so a theorem
  over all scripts is a theorem over all sequences of outcomes.
 */
module DaemonCall {
  import opened Orders

  /** An error; `saysNewer` is whether its text contains "is newer than this binary". */
  datatype Error = Error(text: string, saysNewer: bool)

  datatype Welcome =
    | WelcomeUnread(error: Error)
    | WelcomeClosed
    | WelcomeUnparsed(error: Error)
    | Welcomed(protocol: Option<nat>)

  datatype Response =
    | ResponseUnread(error: Error)
    | ResponseClosed
    | ResponseUnparsed(error: Error)
    | ErrorReply(message: string)
    | OkReply(value: string)

  /** What one attempt meets, step by step. */
  datatype Script = Script(
    connect: Option<Error>, readTimeout: Option<Error>, writeTimeout: Option<Error>, clone: Option<Error>,
    hello: Option<Error>, welcome: Welcome, exitFrame: Option<Error>,
    request: Option<Error>, responseTimeout: Option<Error>, response: Response)

  datatype Phase = BeforeRequest | RequestMayHaveBeenDelivered

  datatype Attempt =
    | Replied(value: string)
    | Refused(message: string)
    | SkewExit
    | Failed(phase: Phase, error: Error)

  /** `as_u64().unwrap_or(0) as u32`. */
  function DaemonProtocol(p: Option<nat>): nat {
    (match p case Some(n) => n case None => 0) % 0x1_0000_0000
  }

  const CLOSED := Error("daemon closed the connection", false)
  const TOO_NEW := Error("daemon protocol is newer than this binary's", true)

  /** Connection and handshake succeed and the protocols are equal: the request gets written. */
  predicate WritesRequest(client: nat, io: Script) {
    && io.connect.None? && io.readTimeout.None? && io.writeTimeout.None? && io.clone.None? && io.hello.None?
    && io.welcome.Welcomed? && Speaks(io.welcome.protocol, client)
  }

  /** The daemon announced protocol `n`, of which 32 bits count, or none, which counts as 0. */
  predicate Speaks(announced: Option<nat>, n: nat) {
    (announced.Some? && announced.value % 0x1_0000_0000 == n) || (announced.None? && n == 0)
  }

  /** The request was written and a response was read. */
  predicate Answered(client: nat, io: Script) {
    WritesRequest(client, io) && io.request.None? && io.responseTimeout.None?
  }

  /** What the attempt comes to, read off the first step that fails. */
  function AttemptOf(client: nat, io: Script): Attempt {
    var early := OrElse(io.connect, OrElse(io.readTimeout, OrElse(io.writeTimeout, OrElse(io.clone, io.hello))));
    var late := OrElse(io.request, io.responseTimeout);
    if early.Some? then Failed(BeforeRequest, early.value) else
      match io.welcome
      case WelcomeUnread(e) => Failed(BeforeRequest, e)
      case WelcomeClosed => Failed(BeforeRequest, CLOSED)
      case WelcomeUnparsed(e) => Failed(BeforeRequest, e)
      case Welcomed(p) =>
        if DaemonProtocol(p) > client then Failed(BeforeRequest, TOO_NEW)
        else if DaemonProtocol(p) < client then
          if io.exitFrame.Some? then Failed(BeforeRequest, io.exitFrame.value) else SkewExit
        else if late.Some? then Failed(RequestMayHaveBeenDelivered, late.value)
        else
          match io.response
          case ResponseUnread(e) => Failed(RequestMayHaveBeenDelivered, e)
          case ResponseClosed => Failed(RequestMayHaveBeenDelivered, CLOSED)
          case ResponseUnparsed(e) => Failed(RequestMayHaveBeenDelivered, e)
          case ErrorReply(m) => Refused(m)
          case OkReply(v) => Replied(v)
  }

  function OrElse(a: Option<Error>, b: Option<Error>): Option<Error> {
    if a.Some? then a else b
  }

  /**
    One attempt; `requests` lists the daemon protocol that each written request was written to. The
    phase label is honest: a failure is labelled as before the request exactly when none was written.
   */
  method TryCall(client: nat, io: Script) returns (r: Attempt, requests: seq<nat>)
    ensures r == AttemptOf(client, io)
    ensures requests == if WritesRequest(client, io) then [client] else []
    ensures requests == [] <==> r.SkewExit? || (r.Failed? && r.phase == BeforeRequest)
  {
    requests := [];
    if io.connect.Some? { return Failed(BeforeRequest, io.connect.value), []; }
    if io.readTimeout.Some? { return Failed(BeforeRequest, io.readTimeout.value), []; }
    if io.writeTimeout.Some? { return Failed(BeforeRequest, io.writeTimeout.value), []; }
    if io.clone.Some? { return Failed(BeforeRequest, io.clone.value), []; }
    if io.hello.Some? { return Failed(BeforeRequest, io.hello.value), []; }
    match io.welcome {
      case WelcomeUnread(e) => return Failed(BeforeRequest, e), [];
      case WelcomeClosed => return Failed(BeforeRequest, CLOSED), [];
      case WelcomeUnparsed(e) => return Failed(BeforeRequest, e), [];
      case Welcomed(p) =>
        var daemon := DaemonProtocol(p);
        if daemon < client {
          if io.exitFrame.Some? { return Failed(BeforeRequest, io.exitFrame.value), []; }
          return SkewExit, [];
        } else if daemon > client {
          return Failed(BeforeRequest, TOO_NEW), [];
        }
        requests := [daemon];
        if io.request.Some? { return Failed(RequestMayHaveBeenDelivered, io.request.value), requests; }
        if io.responseTimeout.Some? {
          return Failed(RequestMayHaveBeenDelivered, io.responseTimeout.value), requests;
        }
        match io.response {
          case ResponseUnread(e) => return Failed(RequestMayHaveBeenDelivered, e), requests;
          case ResponseClosed => return Failed(RequestMayHaveBeenDelivered, CLOSED), requests;
          case ResponseUnparsed(e) => return Failed(RequestMayHaveBeenDelivered, e), requests;
          case ErrorReply(m) => return Refused(m), requests;
          case OkReply(v) => return Replied(v), requests;
        }
    }
  }

  predicate RetryAfterDelivery(name: string) {
    || name == "ping" || name == "who" || name == "my_session" || name == "pty_status"
    || name == "pty_resumable" || name == "channel_members"
  }

  datatype Result =
    | Returned(value: string)
    | RefusedBy(message: string)
    | NewerDaemon(error: Error)
    | MayHaveBeenProcessed(error: Error)
    | SpawnFailed(error: Error)
    | GaveUp

  const ATTEMPTS: nat := 5

  /** How an attempt ends the call, or `None` if the daemon is respawned and tried again. */
  function Ends(name: string, a: Attempt, spawn: Option<Error>): Option<Result> {
    if a.Replied? then Some(Returned(a.value))
    else if a.Refused? then Some(RefusedBy(a.message))
    else if a.Failed? && a.error.saysNewer then Some(NewerDaemon(a.error))
    else if a.Failed? && a.phase == RequestMayHaveBeenDelivered && !RetryAfterDelivery(name) then
      Some(MayHaveBeenProcessed(a.error))
    else if spawn.Some? then Some(SpawnFailed(spawn.value))
    else None
  }

  /** The call ended in an answer about its own request, or not knowing whether it was processed. */
  predicate Delivered(r: Result) {
    r.Returned? || r.RefusedBy? || r.MayHaveBeenProcessed?
  }

  /**
    One call. A method that may not be repeated writes its request at most once, and its result
    tells: without a newer-daemon text in an error, the request was written exactly when the
    result is a reply or says that it may have been processed. Every request is written to a
    daemon of the client's protocol, and at most five attempts are made.
   */
  method CallWithAttempt(name: string, client: nat, scripts: seq<Script>, spawns: seq<Option<Error>>)
    returns (r: Result, attempts: nat, requests: seq<nat>)
    requires |scripts| == ATTEMPTS && |spawns| == ATTEMPTS
    ensures attempts <= 5 && |requests| <= attempts
    ensures forall p :: p in requests ==> p == client
    ensures name !in {"ping", "who", "my_session", "pty_status", "pty_resumable", "channel_members"} ==>
      |requests| <= 1
    ensures !RetryAfterDelivery(name) && !r.NewerDaemon? ==> (requests == [] <==> !Delivered(r))
    ensures 0 < attempts
    ensures forall i :: 0 <= i < attempts - 1 ==> Ends(name, AttemptOf(client, scripts[i]), spawns[i]) == None
    ensures match Ends(name, AttemptOf(client, scripts[attempts - 1]), spawns[attempts - 1])
      case Some(end) => r == end
      case None => r == GaveUp && attempts == 5
    ensures var last := scripts[attempts - 1];
      && (forall v :: r == Returned(v) <==> Answered(client, last) && last.response == OkReply(v))
      && (forall m :: r == RefusedBy(m) <==> Answered(client, last) && last.response == ErrorReply(m))
  {
    requests, attempts := [], 0;
    for i := 0 to ATTEMPTS
      invariant attempts == i && |requests| <= i
      invariant forall p :: p in requests ==> p == client
      invariant !RetryAfterDelivery(name) ==> requests == []
      invariant forall k :: 0 <= k < i ==> Ends(name, AttemptOf(client, scripts[k]), spawns[k]) == None
    {
      var outcome, written := TryCall(client, scripts[i]);
      requests, attempts := requests + written, attempts + 1;
      match outcome {
        case Replied(v) => return Returned(v), attempts, requests;
        case Refused(m) => return RefusedBy(m), attempts, requests;
        case SkewExit =>
          if spawns[i].Some? { return SpawnFailed(spawns[i].value), attempts, requests; }
        case Failed(phase, e) =>
          if e.saysNewer { return NewerDaemon(e), attempts, requests; }
          if phase == RequestMayHaveBeenDelivered && !RetryAfterDelivery(name) {
            return MayHaveBeenProcessed(e), attempts, requests;
          }
          if spawns[i].Some? { return SpawnFailed(spawns[i].value), attempts, requests; }
      }
    }
    r := GaveUp;
  }

  // ---- how attempts and calls end ----

  /** What an attempt comes to, case by case; every failure names its own step's error. */
  lemma {:induction false} AttemptMeans(client: nat, io: Script)
    ensures forall v :: AttemptOf(client, io) == Replied(v) <==> Answered(client, io) && io.response == OkReply(v)
    ensures forall m :: AttemptOf(client, io) == Refused(m) <==> Answered(client, io) && io.response == ErrorReply(m)
    ensures AttemptOf(client, io) == SkewExit <==>
      && io.connect.None? && io.readTimeout.None? && io.writeTimeout.None? && io.clone.None? && io.hello.None?
      && io.welcome.Welcomed? && io.exitFrame.None?
      && exists n: nat :: Speaks(io.welcome.protocol, n) && n < client
    ensures AttemptOf(client, io).Failed? && AttemptOf(client, io).phase == RequestMayHaveBeenDelivered <==>
      WritesRequest(client, io) && (!Answered(client, io) || !(io.response.OkReply? || io.response.ErrorReply?))
  {
    if io.welcome.Welcomed? { assert Speaks(io.welcome.protocol, DaemonProtocol(io.welcome.protocol)); }
  }

  /** The first step that fails decides, and names its own error; a newer daemon's error says so. */
  lemma {:induction false} FirstFailureDecides(client: nat, io: Script)
    ensures var r := AttemptOf(client, io);
      if io.connect.Some? then r == Failed(BeforeRequest, io.connect.value)
      else if io.readTimeout.Some? then r == Failed(BeforeRequest, io.readTimeout.value)
      else if io.writeTimeout.Some? then r == Failed(BeforeRequest, io.writeTimeout.value)
      else if io.clone.Some? then r == Failed(BeforeRequest, io.clone.value)
      else if io.hello.Some? then r == Failed(BeforeRequest, io.hello.value)
      else if io.welcome.WelcomeUnread? || io.welcome.WelcomeUnparsed? then
        r == Failed(BeforeRequest, io.welcome.error)
      else if io.welcome.WelcomeClosed? then r.Failed? && r.phase == BeforeRequest && !r.error.saysNewer
      else if !Speaks(io.welcome.protocol, client) then
        && (r.SkewExit? || (r.Failed? && r.phase == BeforeRequest))
        && ((exists n: nat :: Speaks(io.welcome.protocol, n) && n > client) ==> r.Failed? && r.error.saysNewer)
        && ((exists n: nat :: Speaks(io.welcome.protocol, n) && n < client) && io.exitFrame.Some? ==>
             r == Failed(BeforeRequest, io.exitFrame.value))
      else if io.request.Some? then r == Failed(RequestMayHaveBeenDelivered, io.request.value)
      else if io.responseTimeout.Some? then r == Failed(RequestMayHaveBeenDelivered, io.responseTimeout.value)
      else if io.response.ResponseUnread? || io.response.ResponseUnparsed? then
        r == Failed(RequestMayHaveBeenDelivered, io.response.error)
      else if io.response.ResponseClosed? then
        r.Failed? && r.phase == RequestMayHaveBeenDelivered && !r.error.saysNewer
      else r.Replied? || r.Refused?
  {}

  /** The methods that may be written twice. */
  predicate Repeatable(name: string) {
    name in {"ping", "who", "my_session", "pty_status", "pty_resumable", "channel_members"}
  }

  /** The attempt leaves the daemon to be respawned. */
  predicate Respawns(name: string, a: Attempt) {
    a.SkewExit? || (a.Failed? && !a.error.saysNewer && (a.phase == BeforeRequest || Repeatable(name)))
  }

  lemma {:induction false} EndsMean(name: string, a: Attempt, spawn: Option<Error>)
    ensures Ends(name, a, spawn) == None <==> Respawns(name, a) && spawn == None
    ensures forall e :: Ends(name, a, spawn) == Some(SpawnFailed(e)) <==> Respawns(name, a) && spawn == Some(e)
    ensures forall e :: Ends(name, a, spawn) == Some(NewerDaemon(e)) <==> a.Failed? && a.error == e && e.saysNewer
    ensures forall e :: Ends(name, a, spawn) == Some(MayHaveBeenProcessed(e)) <==>
      a.Failed? && a.error == e && !e.saysNewer && a.phase == RequestMayHaveBeenDelivered && !Repeatable(name)
  {}
}
