/**
 The one-shot browser callback (`handle_callback_request` and `CallbackServerState::take_sender`
 in crates/clustershell-cli/src/auth.rs). Requests are served concurrently and share one sender.
 */
module Callback {
  import opened Text

  datatype Method = Options | Post | OtherMethod

  /** What reading and decoding the request body gives. */
  datatype Body = Unreadable | Undecodable | Payload(token: string, code: string)

  datatype Request = Request(path: string, origin: Option<string>, verb: Method, body: Body)

  datatype Status = Ok | NoContent | BadRequest | Forbidden | NotFound | MethodNotAllowed

  datatype Server = Server(allowedOrigin: Option<string>, expectedCode: string)

  /** The channel: nothing yet, a token, a token that nobody waited for, or a sender dropped without one. */
  datatype Channel = Pending | Delivered(token: string) | Unheard(token: string) | Closed

  // ------------------------------------------------------------ the handler's two halves

  /** The part before the body is awaited: answer at once, perhaps dropping the sender, or read on. */
  datatype Opening = Answer(status: Status, takes: bool) | ReadBody

  function Open(server: Server, req: Request): Opening {
    if req.path != "/callback" then Answer(NotFound, false)
    else if server.allowedOrigin.Some? && req.origin != server.allowedOrigin then Answer(Forbidden, true)
    else if req.verb == Options then Answer(NoContent, false)
    else if req.verb != Post then Answer(MethodNotAllowed, false)
    else ReadBody
  }

  /** The part after it: the sender is always taken, and a token sent only if all is well. */
  datatype Closing = Reject(status: Status) | Accept(token: string)

  function Close(server: Server, req: Request): Closing {
    match req.body
    case Unreadable => Reject(BadRequest)
    case Undecodable => Reject(BadRequest)
    case Payload(token, code) =>
      if token == "" || code == "" then Reject(BadRequest)
      else if code != server.expectedCode then Reject(Forbidden)
      else Accept(token)
  }

  // ---------------------------------------------------------- what a request is entitled to

  /** The required origin, the right place and verb, both fields present, and the right code. */
  ghost predicate IsValid(server: Server, req: Request) {
    && req.path == "/callback"
    && (server.allowedOrigin.Some? ==> req.origin == server.allowedOrigin)
    && req.verb == Post
    && req.body.Payload?
    && req.body.token != "" && req.body.code != "" && req.body.code == server.expectedCode
  }

  ghost predicate WrongOrigin(server: Server, req: Request) {
    server.allowedOrigin.Some? && req.origin != server.allowedOrigin
  }

  /** The body has a token and a code. */
  ghost predicate HasFields(req: Request) {
    req.body.Payload? && req.body.token != "" && req.body.code != ""
  }

  /** The requests that take the sender: those from a wrong origin, and posts. */
  ghost predicate Takes(server: Server, req: Request) {
    req.path == "/callback" && (WrongOrigin(server, req) || req.verb == Post)
  }

  /** The outcome if this request is the first to take the sender, depending on whether anyone still waits. */
  ghost function OutcomeOf(server: Server, req: Request, heard: bool): Channel {
    if !IsValid(server, req) then Closed
    else if heard then Delivered(req.body.token) else Unheard(req.body.token)
  }

  /** Sending fails, without notice, when the waiting side is gone. */
  function Send(token: string, heard: bool): Channel {
    if heard then Delivered(token) else Unheard(token)
  }

  // --------------------------------------------------------------- one request on its own

  class CallbackServerState {
    const server: Server
    /** Whether the sender is still there to be taken. */
    var hasSender: bool
    var channel: Channel
    /** Whether the side that opened the browser has not timed out. */
    var waiting: bool

    constructor (server: Server)
      ensures this.server == server && hasSender && channel == Pending && waiting
    {
      this.server := server;
      hasSender, channel, waiting := true, Pending, true;
    }

    method TakeSender() returns (taken: bool)
      modifies this`hasSender
      ensures taken == old(hasSender) && !hasSender
    {
      taken := hasSender;
      hasSender := false;
    }

    /** Takes the sender, if it is still there, and drops it. */
    method DropSender()
      modifies this`hasSender, this`channel
      ensures !hasSender
      ensures channel == if old(hasSender) then Closed else old(channel)
    {
      var taken := TakeSender();
      if taken {
        channel := Closed;
      }
    }

    method Handle(req: Request) returns (status: Status)
      modifies this`hasSender, this`channel
      ensures hasSender == (old(hasSender) && !Takes(server, req))
      ensures channel == if old(hasSender) && Takes(server, req) then OutcomeOf(server, req, waiting) else old(channel)
      ensures status == Ok <==> IsValid(server, req)
      ensures status == NotFound <==> req.path != "/callback"
      ensures status == Forbidden <==>
                && req.path == "/callback"
                && (WrongOrigin(server, req) ||
                    (req.verb == Post && HasFields(req) && req.body.code != server.expectedCode))
      ensures status == NoContent <==> req.path == "/callback" && !WrongOrigin(server, req) && req.verb == Options
      ensures status == MethodNotAllowed <==>
                req.path == "/callback" && !WrongOrigin(server, req) && req.verb == OtherMethod
      ensures status == BadRequest <==>
                req.path == "/callback" && !WrongOrigin(server, req) && req.verb == Post && !HasFields(req)
    {
      match Open(server, req)
      case Answer(answer, takes) =>
        if takes {
          DropSender();
        }
        status := answer;
      case ReadBody =>
        match Close(server, req)
        case Reject(answer) =>
          DropSender();
          status := answer;
        case Accept(token) =>
          var taken := TakeSender();
          if taken {
            channel := Send(token, waiting);
          }
          status := Ok;
    }
  }

  // ------------------------------------------------------------- requests that interleave

  datatype Phase = Received | Reading | Answered(status: Status)

  /** The side that waits for the token: still, or with it, or told that there is none, or timed out. */
  datatype Waiter = Waiting | Got(token: string) | Refused | TimedOut

  /**
   `takers` lists, in order, the requests that went for the sender; `sent` the tokens handed over;
   `heard` tells whether someone was still waiting when the first of the takers came.
   */
  datatype State = State(
    hasSender: bool, channel: Channel, waiter: Waiter, phases: map<nat, (Request, Phase)>,
    takers: seq<Request>, heard: bool, sent: seq<string>)

  /**
   One request arrives, or runs up to its await point, or runs from there to its answer; or the
   waiting side looks at the channel, or gives up.
   */
  datatype Action = Arrive(id: nat, req: Request) | Begin(id: nat) | Finish(id: nat) | Receive | GiveUp

  const Init := State(true, Pending, Waiting, map[], [], false, [])

  /** Taking the sender: only the first taker finds it, and sends a token or drops it. */
  function Take(s: State, req: Request, token: Option<string>): State {
    var t := s.(takers := s.takers + [req], hasSender := false);
    if !s.hasSender then t
    else
      var heard := s.waiter.Waiting?;
      if token.None? then t.(heard := heard, channel := Closed)
      else t.(heard := heard, channel := Send(token.value, heard), sent := s.sent + [token.value])
  }

  function Step(server: Server, s: State, a: Action): State {
    match a
    case Arrive(id, req) =>
      if id in s.phases then s else s.(phases := s.phases[id := (req, Received)])
    case Begin(id) =>
      if id in s.phases && s.phases[id].1.Received? then
        var req := s.phases[id].0;
        match Open(server, req)
        case ReadBody => s.(phases := s.phases[id := (req, Reading)])
        case Answer(status, takes) =>
          var t := s.(phases := s.phases[id := (req, Answered(status))]);
          if takes then Take(t, req, None) else t
      else s
    case Finish(id) =>
      if id in s.phases && s.phases[id].1.Reading? then
        var req := s.phases[id].0;
        match Close(server, req)
        case Reject(status) => Take(s.(phases := s.phases[id := (req, Answered(status))]), req, None)
        case Accept(token) => Take(s.(phases := s.phases[id := (req, Answered(Ok))]), req, Some(token))
      else s
    case Receive =>
      if s.waiter.Waiting? && s.channel.Delivered? then s.(waiter := Got(s.channel.token))
      else if s.waiter.Waiting? && s.channel.Closed? then s.(waiter := Refused)
      else s
    case GiveUp =>
      if s.waiter.Waiting? then s.(waiter := TimedOut) else s
  }

  function Run(server: Server, actions: seq<Action>): State {
    if actions == [] then Init
    else Step(server, Run(server, actions[..|actions| - 1]), actions[|actions| - 1])
  }

  ghost predicate Inv(server: Server, s: State) {
    && (s.hasSender <==> s.takers == [])
    && s.channel == (if s.takers == [] then Pending else OutcomeOf(server, s.takers[0], s.heard))
    && s.sent == (if s.channel.Delivered? || s.channel.Unheard? then [s.channel.token] else [])
    && (s.waiter.Got? ==> s.channel == Delivered(s.waiter.token))
    && (forall i | 0 <= i < |s.takers| :: Takes(server, s.takers[i]))
    && (forall id | id in s.phases && s.phases[id].1.Reading? :: Open(server, s.phases[id].0) == ReadBody)
    && (forall id | id in s.phases && s.phases[id].1.Answered? ::
          s.phases[id].1.status == Ok <==> IsValid(server, s.phases[id].0))
  }

  lemma TakeKeepsInv(server: Server, s: State, req: Request, token: Option<string>)
    requires Inv(server, s) && Takes(server, req)
    requires OutcomeOf(server, req, s.waiter.Waiting?) ==
             if token.None? then Closed else Send(token.value, s.waiter.Waiting?)
    ensures Inv(server, Take(s, req, token))
  {}

  lemma BeginKeepsInv(server: Server, s: State, id: nat)
    requires Inv(server, s) && id in s.phases && s.phases[id].1.Received?
    ensures Inv(server, Step(server, s, Begin(id)))
  {
    var req := s.phases[id].0;
    match Open(server, req)
    case ReadBody =>
    case Answer(status, takes) =>
      var t := s.(phases := s.phases[id := (req, Answered(status))]);
      assert Inv(server, t);
      if takes {
        TakeKeepsInv(server, t, req, None);
      }
  }

  lemma FinishKeepsInv(server: Server, s: State, id: nat)
    requires Inv(server, s) && id in s.phases && s.phases[id].1.Reading?
    ensures Inv(server, Step(server, s, Finish(id)))
  {
    var req := s.phases[id].0;
    match Close(server, req)
    case Reject(status) =>
      var t := s.(phases := s.phases[id := (req, Answered(status))]);
      assert Inv(server, t);
      TakeKeepsInv(server, t, req, None);
    case Accept(token) =>
      var t := s.(phases := s.phases[id := (req, Answered(Ok))]);
      assert Inv(server, t);
      TakeKeepsInv(server, t, req, Some(token));
  }

  lemma StepKeepsInv(server: Server, s: State, a: Action)
    requires Inv(server, s)
    ensures Inv(server, Step(server, s, a))
  {
    if a.Begin? && a.id in s.phases && s.phases[a.id].1.Received? {
      BeginKeepsInv(server, s, a.id);
    } else if a.Finish? && a.id in s.phases && s.phases[a.id].1.Reading? {
      FinishKeepsInv(server, s, a.id);
    }
  }

  /**
   Under every interleaving: the outcome is fixed by the first request that takes the sender, it is
   that request's token exactly when the request is valid and someone still waits, what the waiting
   side gets is that token, at most one token is ever sent, and wrong paths, preflights from the
   right origin and other verbs never take the sender.
   */
  lemma {:induction false} FirstTakerDecides(server: Server, actions: seq<Action>)
    ensures var s := Run(server, actions);
      && s.channel == (if s.takers == [] then Pending else OutcomeOf(server, s.takers[0], s.heard))
      && |s.sent| <= 1
      && (s.sent != [] ==> s.takers != [] && IsValid(server, s.takers[0]) && s.sent == [s.takers[0].body.token])
      && (s.waiter.Got? ==> s.channel == Delivered(s.waiter.token))
      && (forall i | 0 <= i < |s.takers| :: Takes(server, s.takers[i]))
  {
    RunKeepsInv(server, actions);
  }

  lemma {:induction false} RunKeepsInv(server: Server, actions: seq<Action>)
    ensures Inv(server, Run(server, actions))
  {
    if actions == [] {
    } else {
      var n := |actions| - 1;
      RunKeepsInv(server, actions[..n]);
      StepKeepsInv(server, Run(server, actions[..n]), actions[n]);
    }
  }

  /** Once a request has taken the sender, what it brought about stays. */
  ghost predicate Keeps(s: State, t: State) {
    && s.takers <= t.takers
    && (s.takers != [] ==> t.channel == s.channel && t.heard == s.heard)
  }

  lemma StepKeepsOutcome(server: Server, s: State, a: Action)
    requires s.hasSender <==> s.takers == []
    ensures Keeps(s, Step(server, s, a))
  {}

  lemma {:induction false} RunKeepsOutcome(server: Server, actions: seq<Action>, n: nat)
    requires n <= |actions|
    ensures Keeps(Run(server, actions[..n]), Run(server, actions))
  {
    if n == |actions| {
      assert actions[..n] == actions;
    } else {
      var front, last := actions[..|actions| - 1], actions[|actions| - 1];
      assert front[..n] == actions[..n];
      RunKeepsOutcome(server, front, n);
      RunKeepsInv(server, front);
      StepKeepsOutcome(server, Run(server, front), last);
    }
  }

  /** Once decided, the outcome stays. */
  lemma OutcomeIsFinal(server: Server, actions: seq<Action>, n: nat)
    requires n <= |actions| && !Run(server, actions[..n]).channel.Pending?
    ensures Run(server, actions).channel == Run(server, actions[..n]).channel
  {
    RunKeepsInv(server, actions[..n]);
    RunKeepsOutcome(server, actions, n);
  }

  /** A request that takes the sender has gone for it by the time it is answered. */
  ghost predicate AnsweredHaveTaken(server: Server, s: State) {
    forall id | id in s.phases && s.phases[id].1.Answered? && Takes(server, s.phases[id].0) ::
      s.phases[id].0 in s.takers
  }

  lemma {:induction false} RunAnswersTakers(server: Server, actions: seq<Action>)
    ensures AnsweredHaveTaken(server, Run(server, actions))
  {
    if actions == [] {
    } else {
      var n := |actions| - 1;
      RunAnswersTakers(server, actions[..n]);
      RunKeepsInv(server, actions[..n]);
      StepAnswersTakers(server, Run(server, actions[..n]), actions[n]);
    }
  }

  lemma StepAnswersTakers(server: Server, s: State, a: Action)
    requires AnsweredHaveTaken(server, s) && (s.hasSender <==> s.takers == [])
    ensures AnsweredHaveTaken(server, Step(server, s, a))
  {
    var t := Step(server, s, a);
    StepKeepsOutcome(server, s, a);
    forall id | id in t.phases && t.phases[id].1.Answered? && Takes(server, t.phases[id].0)
      ensures t.phases[id].0 in t.takers
    {
      if id in s.phases && s.phases[id] == t.phases[id] {
        assert t.phases[id].0 in s.takers;
      } else {
        assert t.takers == s.takers + [t.phases[id].0];
      }
    }
  }

  /**
   When being told Ok means being delivered. A request that was told so has gone for the sender, so
   the outcome is fixed, and it is this request's token exactly when the first request that went
   for the sender is valid and carries the same token, and came while someone still waited.
   */
  lemma OkMeansDeliveredExactlyWhen(server: Server, actions: seq<Action>, id: nat)
    requires id in Run(server, actions).phases && Run(server, actions).phases[id].1 == Answered(Ok)
    ensures var s := Run(server, actions);
      var req := s.phases[id].0;
      && IsValid(server, req) && req in s.takers && !s.channel.Pending?
      && (s.channel == Delivered(req.body.token) <==>
            IsValid(server, s.takers[0]) && s.takers[0].body.token == req.body.token && s.heard)
  {
    RunKeepsInv(server, actions);
    RunAnswersTakers(server, actions);
  }

  /** `heard` is what it says: whether someone waited just before the action of the first taker. */
  lemma HeardMeansStillWaiting(server: Server, actions: seq<Action>, n: nat)
    requires n < |actions| && Run(server, actions[..n]).takers == [] && Run(server, actions[..n + 1]).takers != []
    ensures Run(server, actions).heard == Run(server, actions[..n]).waiter.Waiting?
  {
    var front := actions[..n];
    RunKeepsInv(server, front);
    RunKeepsOutcome(server, actions, n + 1);
    assert actions[..n + 1] == front + [actions[n]];
    RunSnoc(server, front, actions[n]);
    FirstTake(server, Run(server, front), actions[n]);
  }

  lemma FirstTake(server: Server, s: State, a: Action)
    requires s.hasSender && s.takers == [] && Step(server, s, a).takers != []
    ensures Step(server, s, a).heard == s.waiter.Waiting?
  {}

  /** A valid request that comes after the waiting side gave up is told Ok, and its token reaches nobody. */
  lemma LateTokenIsUnheard(server: Server, req: Request)
    requires IsValid(server, req)
    ensures var s := Run(server, [GiveUp, Arrive(0, req), Begin(0), Finish(0)]);
      s.channel == Unheard(req.body.token) && 0 in s.phases && s.phases[0] == (req, Answered(Ok))
  {
    var a1 := [GiveUp];
    var a2 := a1 + [Arrive(0, req)];
    var a3 := a2 + [Begin(0)];
    assert [GiveUp, Arrive(0, req), Begin(0), Finish(0)] == a3 + [Finish(0)];
    RunSnoc(server, [], GiveUp);
    assert [] + a1 == a1;
    RunSnoc(server, a1, Arrive(0, req));
    RunSnoc(server, a2, Begin(0));
    RunSnoc(server, a3, Finish(0));
  }

  /** The run in which request 0 is served first and request 1 has arrived. */
  ghost function StrayFirst(req: Request, stray: Request): seq<Action> {
    [Arrive(0, stray), Arrive(1, req), Begin(0), Finish(0)]
  }

  lemma StrayCloses(server: Server, req: Request, stray: Request)
    requires Open(server, stray) == ReadBody && Close(server, stray).Reject?
    ensures var s := Run(server, StrayFirst(req, stray));
      s.channel == Closed && !s.hasSender && 1 in s.phases && s.phases[1] == (req, Received)
  {
    var a1 := [Arrive(0, stray)];
    var a2 := a1 + [Arrive(1, req)];
    var a3 := a2 + [Begin(0)];
    assert StrayFirst(req, stray) == a3 + [Finish(0)];
    RunSnoc(server, [], Arrive(0, stray));
    assert [] + a1 == a1;
    RunSnoc(server, a1, Arrive(1, req));
    RunSnoc(server, a2, Begin(0));
    RunSnoc(server, a3, Finish(0));
  }

  /** A valid request is told Ok even when an earlier taker has already closed the channel. */
  lemma OkDoesNotMeanDelivered(server: Server, req: Request, stray: Request)
    requires IsValid(server, req) && Takes(server, stray) && !IsValid(server, stray) && stray.verb == Post
    requires server.allowedOrigin.Some? ==> stray.origin == server.allowedOrigin
    ensures exists actions :: var s := Run(server, actions);
      s.channel == Closed && 1 in s.phases && s.phases[1] == (req, Answered(Ok))
  {
    var a4 := StrayFirst(req, stray);
    var a5 := a4 + [Begin(1)];
    StrayCloses(server, req, stray);
    RunSnoc(server, a4, Begin(1));
    RunSnoc(server, a5, Finish(1));
    var s := Run(server, a5 + [Finish(1)]);
    assert s.channel == Closed && 1 in s.phases && s.phases[1] == (req, Answered(Ok));
  }

  lemma RunSnoc(server: Server, actions: seq<Action>, a: Action)
    ensures Run(server, actions + [a]) == Step(server, Run(server, actions), a)
  {
    assert (actions + [a])[..|actions|] == actions;
  }
}
