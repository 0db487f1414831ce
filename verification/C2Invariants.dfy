/** What every step of the C2 channel keeps. */
module C2Invariants {
  import opened Machine
  import opened C2

  // ---------------------------------------------------------------- shape of the exchanges

  ghost predicate TypedExchange(e: Exchange) {
    match e.req
    case Poll(_, _, _, _) => !e.status.Nonce? && !e.status.Installed?
    case Challenge => e.status.Sent? || e.status.Nonce?
    case Rekey(_, _) => e.status.Sent? || e.status.Rejected? || e.status.Installed?
  }

  ghost predicate Shape(s: Sys) {
    && (forall y :: 0 <= y < |s.ex| ==> TypedExchange(s.ex[y]))
    && match s.pc
       case AwaitChallenge(x) => x < |s.ex| && s.ex[x].req.Challenge? && !s.dev.magic
       case AwaitRekey(x) => x < |s.ex| && s.ex[x].req.Rekey? && !s.dev.magic
       case AwaitPoll(x) =>
         x < |s.ex| && s.dev.magic && s.ex[x].req.Poll?
         && s.ex[x].req.ack == s.dev.ack && s.ex[x].req.c == s.dev.counter && s.ex[x].req.secret == s.dev.secret
       case _ => true
  }

  /** What an accepted poll tells: it was made with the installed secret, and its counter is the new one. */
  lemma AdmittedPoll(srv: Srv, r: Req)
    requires r.Poll? && Check(srv, r).ok
    ensures srv.session == Some(r.secret) && Check(srv, r).newCounter == r.c
    ensures srv.boot ==> srv.last < r.c
  {
  }

  /** The request an action admits, if it is an accepted poll. */
  ghost predicate Admits(s: Sys, a: Action) {
    && Enabled(s, a) && (a.ServePoll? || a.ReplayPoll?)
    && a.x < |s.ex| && s.ex[a.x].req.Poll? && Check(s.srv, s.ex[a.x].req).ok
  }

  // ---------------------------------------------------------------- steps by kind

  lemma DeviceStep(s: Sys, a: Action)
    requires ByDevice(a)
    ensures Enabled(s, a) <==> DeviceEnabled(s, a)
    ensures Step(s, a) == if DeviceEnabled(s, a) then DeviceEffect(s, a) else s
  {
    hide DeviceEnabled, DeviceEffect, PollEnabled, PollEffect, RekeyEnabled, RekeyEffect, OperatorEnabled, OperatorEffect;
  }

  lemma PollStep(s: Sys, a: Action)
    requires ByPolls(a)
    ensures Enabled(s, a) <==> PollEnabled(s, a)
    ensures Step(s, a) == if PollEnabled(s, a) then PollEffect(s, a) else s
  {
    hide DeviceEnabled, DeviceEffect, PollEnabled, PollEffect, RekeyEnabled, RekeyEffect, OperatorEnabled, OperatorEffect;
  }

  lemma RekeyStep(s: Sys, a: Action)
    requires ByRekeys(a)
    ensures Enabled(s, a) <==> RekeyEnabled(s, a)
    ensures Step(s, a) == if RekeyEnabled(s, a) then RekeyEffect(s, a) else s
  {
    hide DeviceEnabled, DeviceEffect, PollEnabled, PollEffect, RekeyEnabled, RekeyEffect, OperatorEnabled, OperatorEffect;
  }

  lemma OperatorStep(s: Sys, a: Action)
    requires ByOperator(a)
    ensures Enabled(s, a) <==> OperatorEnabled(s, a)
    ensures Step(s, a) == if OperatorEnabled(s, a) then OperatorEffect(s, a) else s
  {
    hide DeviceEnabled, DeviceEffect, PollEnabled, PollEffect, RekeyEnabled, RekeyEffect, OperatorEnabled, OperatorEffect;
  }

  // ---------------------------------------------------------------- what each kind of step leaves alone

  lemma DeviceFrame(s: Sys, a: Action)
    requires ByDevice(a)
    ensures var t := Step(s, a);
      t.srv == s.srv && t.sn == s.sn && t.narrow == s.narrow && t.ordered == s.ordered && t.accepted == s.accepted
  {
    hide Step, Enabled, Effect, IsNext;
    DeviceStep(s, a);
  }

  ghost predicate SameRequests(s: Sys, t: Sys) {
    |t.ex| == |s.ex| && forall y :: 0 <= y < |s.ex| ==> t.ex[y].req == s.ex[y].req
  }

  /** Nothing on the device's side, and none of the history it writes, differs. */
  ghost predicate SameDevice(s: Sys, t: Sys) {
    && t.dev == s.dev && t.pc == s.pc && t.sn == s.sn && t.ran == s.ran && t.acked == s.acked && t.actioned == s.actioned
    && t.narrow == s.narrow && t.ordered == s.ordered && t.wrapped == s.wrapped && t.nextSecret == s.nextSecret
  }

  /** A poll step changes the backend only by admitting a poll. */
  ghost predicate PollFramed(s: Sys, a: Action, t: Sys) {
    && SameDevice(s, t) && SameRequests(s, t) && t.nextNonce == s.nextNonce
    && (forall y :: 0 <= y < |s.ex| && TypedExchange(s.ex[y]) ==> TypedExchange(t.ex[y]))
    && (forall y :: 0 <= y < |s.ex| && TypedExchange(s.ex[y]) && !s.ex[y].req.Poll? ==>
          t.ex[y].status == s.ex[y].status || t.ex[y].status.Rejected?)
    && (forall y :: 0 <= y < |s.ex| && (t.ex[y].status.Nonce? || t.ex[y].status.Sent?) ==>
          t.ex[y] == s.ex[y] && (a.ServePoll? && IsSent(s, a.x) && Enabled(s, a) ==> y != a.x))
    && if Admits(s, a) then t.srv == Admit(s, s.ex[a.x].req).srv && t.accepted == Admit(s, s.ex[a.x].req).accepted
       else t.srv == s.srv && t.accepted == s.accepted
  }

  lemma ServePollIs(s: Sys, x: nat, reply: Option<nat>)
    ensures !Enabled(s, ServePoll(x, reply)) ==> Step(s, ServePoll(x, reply)) == s
    ensures Enabled(s, ServePoll(x, reply)) ==>
      var r := s.ex[x].req;
      Step(s, ServePoll(x, reply)) ==
      if !Check(s.srv, r).ok then Answer(s, x, Rejected)
      else Answer(Admit(s, r), x, if reply.Some? then Served(reply.value) else if r.wait then Holding(Admit(s, r).srv.cursor) else Empty)
  {
    hide Step, Enabled, Effect, Check, IsNext, NothingDue, MarkApplied, Answer;
    PollStep(s, ServePoll(x, reply));
  }

  lemma ServePollFramed(s: Sys, x: nat, reply: Option<nat>)
    ensures PollFramed(s, ServePoll(x, reply), Step(s, ServePoll(x, reply)))
  {
    hide Step, Check, IsNext, NothingDue, MarkApplied;
    ServePollIs(s, x, reply);
  }

  lemma FailRequestFramed(s: Sys, x: nat)
    ensures PollFramed(s, FailRequest(x), Step(s, FailRequest(x)))
  {
    hide Step, Enabled, Effect, Check, Admit;
    PollStep(s, FailRequest(x));
  }

  lemma ReplayPollFramed(s: Sys, x: nat)
    ensures PollFramed(s, ReplayPoll(x), Step(s, ReplayPoll(x)))
  {
    hide Step, Enabled, Effect, Check, MarkApplied;
    PollStep(s, ReplayPoll(x));
  }

  lemma HoldServeFramed(s: Sys, x: nat, q: nat)
    ensures PollFramed(s, HoldServe(x, q), Step(s, HoldServe(x, q)))
  {
    hide Step, Enabled, Effect, Check, IsNext, Admit;
    PollStep(s, HoldServe(x, q));
  }

  lemma HoldExpireFramed(s: Sys, x: nat)
    ensures PollFramed(s, HoldExpire(x), Step(s, HoldExpire(x)))
  {
    hide Step, Enabled, Effect, Check, Admit;
    PollStep(s, HoldExpire(x));
  }

  /** A forged poll is refused, so it moves neither the counter nor the cursor. */
  lemma ForgeryRefused(s: Sys, ack: nat, c: U32, secret: nat)
    ensures Step(s, ForgePoll(ack, c, secret)) == s
  {
    if Enabled(s, ForgePoll(ack, c, secret)) && Check(s.srv, Poll(ack, c, secret, false)).ok {
      AdmittedPoll(s.srv, Poll(ack, c, secret, false));
    }
  }

  lemma ForgeryFramed(s: Sys, ack: nat, c: U32, secret: nat)
    ensures PollFramed(s, ForgePoll(ack, c, secret), Step(s, ForgePoll(ack, c, secret)))
  {
    hide Step, Enabled;
    ForgeryRefused(s, ack, c, secret);
  }

  lemma PollFrame(s: Sys, a: Action)
    requires ByPolls(a)
    ensures PollFramed(s, a, Step(s, a))
  {
    hide Step, PollFramed;
    match a
    case ServePoll(x, reply) => ServePollFramed(s, x, reply);
    case FailRequest(x) => FailRequestFramed(s, x);
    case ReplayPoll(x) => ReplayPollFramed(s, x);
    case HoldServe(x, q) => HoldServeFramed(s, x, q);
    case HoldExpire(x) => HoldExpireFramed(s, x);
    case ForgePoll(ack, c, secret) => ForgeryFramed(s, ack, c, secret);
  }

  /** A re-key request that the backend accepts in this step. */
  ghost predicate Installs(s: Sys, a: Action) {
    Enabled(s, a) && (a.ServeRekey? || a.ReplayRekey?) && a.x < |s.ex| && s.ex[a.x].req.Rekey? && Live(s, s.ex[a.x])
  }

  /** A re-key step touches neither the queue nor the device, and no answer to a poll. */
  ghost predicate RekeyFramed(s: Sys, a: Action, t: Sys) {
    && SameDevice(s, t) && SameRequests(s, t) && t.accepted == s.accepted
    && (forall y :: 0 <= y < |s.ex| ==>
          t.ex[y] == s.ex[y] || AnsweredRekey(t.ex[y]) || (AnsweredChallenge(t.ex[y], s.nextNonce) && s.nextNonce < t.nextNonce))
    && s.nextNonce <= t.nextNonce && t.srv.rows == s.srv.rows && t.srv.cursor == s.srv.cursor
    && if Installs(s, a) then t.srv == Install(s, s.ex[a.x].req).srv
       else t.srv.session == s.srv.session && t.srv.last == s.srv.last && t.srv.boot == s.srv.boot
            && (t.srv.nonce == s.srv.nonce || t.srv.nonce.None? || (t.srv.nonce == Some(s.nextNonce) && s.nextNonce < t.nextNonce))
  }

  predicate AnsweredRekey(e: Exchange) {
    e.req.Rekey? && (e.status.Rejected? || e.status.Installed?)
  }

  predicate AnsweredChallenge(e: Exchange, nonce: nat) {
    e.req.Challenge? && e.status == Nonce(nonce)
  }

  lemma ServeChallengeFramed(s: Sys, x: nat)
    ensures RekeyFramed(s, ServeChallenge(x), Step(s, ServeChallenge(x)))
  {
    hide Step, Enabled, Effect, Check, Admit, Enqueue, MarkApplied, IsNext, NothingDue;
    RekeyStep(s, ServeChallenge(x));
  }

  lemma ServeRekeyIs(s: Sys, x: nat)
    ensures Step(s, ServeRekey(x)) ==
      if !(IsSent(s, x) && s.ex[x].req.Rekey?) then s
      else if Live(s, s.ex[x]) then Answer(Install(s, s.ex[x].req), x, Installed)
      else Answer(s, x, Rejected)
  {
    hide Step, Enabled, Effect, Answer, Install;
    RekeyStep(s, ServeRekey(x));
  }

  lemma ServeRekeyFramed(s: Sys, x: nat)
    ensures RekeyFramed(s, ServeRekey(x), Step(s, ServeRekey(x)))
  {
    hide Step, Effect, Enabled;
    RekeyStep(s, ServeRekey(x));
    hide RekeyEffect;
    ServeRekeyIs(s, x);
  }

  lemma ReplayRekeyFramed(s: Sys, x: nat)
    ensures RekeyFramed(s, ReplayRekey(x), Step(s, ReplayRekey(x)))
  {
    hide Step, Enabled, Effect, Check, Admit, Enqueue, MarkApplied, IsNext, NothingDue;
    RekeyStep(s, ReplayRekey(x));
  }

  lemma ExpireNonceFramed(s: Sys)
    ensures RekeyFramed(s, ExpireNonce, Step(s, ExpireNonce))
  {
    hide Step, Enabled, Effect, Check, Admit, Enqueue, MarkApplied, IsNext, NothingDue;
    RekeyStep(s, ExpireNonce);
  }

  lemma RekeyFrame(s: Sys, a: Action)
    requires ByRekeys(a)
    ensures RekeyFramed(s, a, Step(s, a))
  {
    hide Step, RekeyFramed;
    match a
    case ServeChallenge(x) => ServeChallengeFramed(s, x);
    case ServeRekey(x) => ServeRekeyFramed(s, x);
    case ReplayRekey(x) => ReplayRekeyFramed(s, x);
    case ExpireNonce => ExpireNonceFramed(s);
  }

  lemma ShapeKeptByDevice(s: Sys, a: Action)
    requires Shape(s) && ByDevice(a)
    ensures Shape(Step(s, a))
  {
    hide Step, Enabled, Effect, IsNext;
    DeviceStep(s, a);
  }

  lemma ShapeKeptByPolls(s: Sys, a: Action)
    requires Shape(s) && ByPolls(a)
    ensures Shape(Step(s, a))
  {
    hide Step, TypedExchange, Admits, Admit;
    PollFrame(s, a);
  }

  lemma ShapeKeptByRekeys(s: Sys, a: Action)
    requires Shape(s) && ByRekeys(a)
    ensures Shape(Step(s, a))
  {
    hide Step, Enabled;
    RekeyFrame(s, a);
  }

  lemma ShapeKeptByOperator(s: Sys, a: Action)
    requires Shape(s) && ByOperator(a)
    ensures Shape(Step(s, a))
  {
    hide Step, Enabled, Effect, Check, Enqueue, IsNext, NothingDue, MarkApplied;
    OperatorStep(s, a);
  }

  lemma ShapeKept(s: Sys, a: Action)
    requires Shape(s)
    ensures Shape(Step(s, a))
  {
    hide Effect, Enabled, Step, Shape;
    if ByDevice(a) {
      ShapeKeptByDevice(s, a);
    } else if ByPolls(a) {
      ShapeKeptByPolls(s, a);
    } else if ByRekeys(a) {
      ShapeKeptByRekeys(s, a);
    } else {
      ShapeKeptByOperator(s, a);
    }
  }

  // ---------------------------------------------------------------- nonces, secrets, counters

  /** A re-key request that the backend would still accept. */
  predicate Live(s: Sys, e: Exchange) {
    e.req.Rekey? && s.srv.nonce == Some(e.req.nonce)
  }

  ghost predicate NoneLive(s: Sys) {
    forall y :: 0 <= y < |s.ex| ==> !Live(s, s.ex[y])
  }

  ghost predicate Fresh(s: Sys) {
    && (forall y :: 0 <= y < |s.ex| ==> FreshExchange(s, s.ex[y]))
    && (s.srv.nonce.Some? ==> s.srv.nonce.value < s.nextNonce)
    && (s.srv.session.Some? ==> s.srv.session.value < s.nextSecret)
    && (s.dev.magic ==> s.dev.secret < s.nextSecret)
    && (forall i :: 0 <= i < |s.accepted| ==> s.accepted[i].0 < s.nextSecret)
  }

  predicate FreshExchange(s: Sys, e: Exchange) {
    && (e.req.Rekey? ==> e.req.nonce < s.nextNonce && e.req.secret < s.nextSecret)
    && (e.req.Poll? ==> e.req.secret < s.nextSecret)
    && (e.status.Nonce? ==> e.status.n < s.nextNonce)
  }

  /** Which re-key requests can still be accepted, and what the device may rely on. */
  ghost predicate Handshake(s: Sys) {
    && (s.dev.magic ==> s.srv.session == Some(s.dev.secret) && NoneLive(s))
    && match s.pc
       case AwaitChallenge(x) =>
         x < |s.ex| && s.ex[x].status.Nonce? ==>
           NoneLive(s) && forall y :: 0 <= y < |s.ex| && s.ex[y].req.Rekey? ==> s.ex[y].req.nonce != s.ex[x].status.n
       case AwaitRekey(x) =>
         x < |s.ex| && s.ex[x].req.Rekey? ==>
           (forall y :: 0 <= y < |s.ex| && y != x ==> !Live(s, s.ex[y]))
           && (forall y :: 0 <= y < |s.ex| && s.ex[y].req.Poll? ==> s.ex[y].req.secret != s.ex[x].req.secret)
           && (s.ex[x].status.Installed? ==>
                 !Live(s, s.ex[x]) && s.srv.session == Some(s.ex[x].req.secret) && !s.srv.boot && s.srv.last == 0)
       case _ => true
  }

  /** Accepted counters rise within a secret, and a secret that was installed cannot be installed again. */
  ghost predicate Counters(s: Sys) {
    && (forall i, j :: 0 <= i < j < |s.accepted| && s.accepted[i].0 == s.accepted[j].0 ==> s.accepted[i].1 < s.accepted[j].1)
    && (forall i, y :: 0 <= i < |s.accepted| && 0 <= y < |s.ex| && Live(s, s.ex[y]) ==> s.accepted[i].0 != s.ex[y].req.secret)
    && (forall y :: 0 <= y < |s.ex| && Live(s, s.ex[y]) ==> s.srv.session != Some(s.ex[y].req.secret))
    && (s.srv.session.Some? ==> AcceptedUpTo(s.accepted, s.srv.session.value, s.srv.boot, s.srv.last))
  }

  ghost predicate AcceptedUpTo(accepted: seq<(nat, U64)>, secret: nat, boot: bool, last: U64) {
    && (!boot ==> last == 0 && forall i :: 0 <= i < |accepted| ==> accepted[i].0 != secret)
    && (boot ==> forall i :: 0 <= i < |accepted| && accepted[i].0 == secret ==> accepted[i].1 <= last)
  }

  /** Until the device's 32-bit counter wraps, it runs ahead of everything sent and accepted under its secret. */
  ghost predicate Ahead(s: Sys) {
    s.dev.magic && !s.wrapped ==>
      && (forall y :: 0 <= y < |s.ex| && s.ex[y].req.Poll? && s.ex[y].req.secret == s.dev.secret ==>
            s.ex[y].req.c <= s.dev.counter && (s.pc.AwaitPoll? && y != s.pc.x ==> s.ex[y].req.c < s.dev.counter))
      && s.srv.last <= s.dev.counter
      && (s.pc.AwaitPoll? && s.pc.x < |s.ex| && s.ex[s.pc.x].status.Sent? ==> s.srv.last < s.dev.counter)
  }

  lemma FreshKeptByDevice(s: Sys, a: Action)
    requires Shape(s) && Fresh(s) && ByDevice(a)
    ensures Fresh(Step(s, a))
  {
    hide Step, Enabled, Effect, IsNext;
    DeviceStep(s, a);
  }

  lemma FreshKeptByPolls(s: Sys, a: Action)
    requires Shape(s) && Fresh(s) && ByPolls(a)
    ensures Fresh(Step(s, a))
  {
    hide Step, Check, MarkApplied, Shape;
    PollFrame(s, a);
    if Admits(s, a) {
      AdmittedPoll(s.srv, s.ex[a.x].req);
    }
  }

  lemma FreshKeptByRekeys(s: Sys, a: Action)
    requires Shape(s) && Fresh(s) && ByRekeys(a)
    ensures Fresh(Step(s, a))
  {
    hide Step, Enabled;
    RekeyFrame(s, a);
  }

  lemma FreshKeptByOperator(s: Sys, a: Action)
    requires Shape(s) && Fresh(s) && ByOperator(a)
    ensures Fresh(Step(s, a))
  {
    hide Step, Enabled, Effect, Check, Enqueue, IsNext, NothingDue, MarkApplied;
    OperatorStep(s, a);
  }

  lemma FreshKept(s: Sys, a: Action)
    requires Shape(s) && Fresh(s)
    ensures Fresh(Step(s, a))
  {
    hide Effect, Enabled, Step, Fresh;
    if ByDevice(a) {
      FreshKeptByDevice(s, a);
    } else if ByPolls(a) {
      FreshKeptByPolls(s, a);
    } else if ByRekeys(a) {
      FreshKeptByRekeys(s, a);
    } else {
      FreshKeptByOperator(s, a);
    }
  }

  lemma HandshakeKeptByDevice(s: Sys, a: Action)
    requires Shape(s) && Fresh(s) && Handshake(s) && ByDevice(a)
    ensures Handshake(Step(s, a))
  {
    hide Step, Enabled, Effect, IsNext;
    DeviceStep(s, a);
  }

  lemma HandshakeKeptByPolls(s: Sys, a: Action)
    requires Shape(s) && Fresh(s) && Handshake(s) && ByPolls(a)
    ensures Handshake(Step(s, a))
  {
    hide Step, Check, MarkApplied, Fresh;
    PollFrame(s, a);
    if Admits(s, a) {
      AdmittedPoll(s.srv, s.ex[a.x].req);
    }
  }

  /** A new nonce is larger than any in a request, so it kills every outstanding re-key request. */
  lemma NewNonceKillsAll(s: Sys, x: nat)
    requires Shape(s) && Fresh(s) && IsSent(s, x) && s.ex[x].req.Challenge?
    ensures NoneLive(Effect(s, ServeChallenge(x)))
  {
  }

  lemma HandshakeKeptByChallenge(s: Sys, x: nat)
    requires Shape(s) && Fresh(s) && Handshake(s) && IsSent(s, x) && s.ex[x].req.Challenge?
    ensures Handshake(Effect(s, ServeChallenge(x)))
  {
    NewNonceKillsAll(s, x);
  }

  lemma HandshakeKeptByInstall(s: Sys, x: nat)
    requires Shape(s) && Fresh(s) && Handshake(s) && x < |s.ex| && Live(s, s.ex[x])
    ensures Handshake(Answer(Install(s, s.ex[x].req), x, Installed)) || !s.ex[x].status.Sent?
    ensures Handshake(Install(s, s.ex[x].req))
  {
  }

  lemma HandshakeKeptByRekeys(s: Sys, a: Action)
    requires Shape(s) && Fresh(s) && Handshake(s) && ByRekeys(a)
    ensures Handshake(Step(s, a))
  {
    hide Check, Enqueue, IsNext, NothingDue, MarkApplied, Handshake, Fresh, Shape, NoneLive, Install, Answer;
    if Enabled(s, a) {
      match a
      case ServeChallenge(x) => HandshakeKeptByChallenge(s, x);
      case ServeRekey(x) =>
        if Live(s, s.ex[x]) {
          HandshakeKeptByInstall(s, x);
        } else {
          HandshakeKeptByRejection(s, x);
        }
      case ReplayRekey(x) => HandshakeKeptByInstall(s, x);
      case ExpireNonce => HandshakeKeptByExpiry(s);
    }
  }

  lemma HandshakeKeptByRejection(s: Sys, x: nat)
    requires Shape(s) && Handshake(s) && x < |s.ex| && s.ex[x].req.Rekey? && s.ex[x].status.Sent?
    ensures Handshake(Answer(s, x, Rejected))
  {
  }

  lemma HandshakeKeptByExpiry(s: Sys)
    requires Shape(s) && Handshake(s)
    ensures Handshake(s.(srv := s.srv.(nonce := None)))
  {
  }

  lemma HandshakeKeptByOperator(s: Sys, a: Action)
    requires Shape(s) && Fresh(s) && Handshake(s) && ByOperator(a)
    ensures Handshake(Step(s, a))
  {
    hide Step, Enabled, Effect, Check, Enqueue, IsNext, NothingDue, MarkApplied;
    OperatorStep(s, a);
  }

  lemma HandshakeKept(s: Sys, a: Action)
    requires Shape(s) && Fresh(s) && Handshake(s)
    ensures Handshake(Step(s, a))
  {
    hide Effect, Enabled, Step, Handshake;
    if ByDevice(a) {
      HandshakeKeptByDevice(s, a);
    } else if ByPolls(a) {
      HandshakeKeptByPolls(s, a);
    } else if ByRekeys(a) {
      HandshakeKeptByRekeys(s, a);
    } else {
      HandshakeKeptByOperator(s, a);
    }
  }

  lemma CountersKeptByDevice(s: Sys, a: Action)
    requires Shape(s) && Fresh(s) && Handshake(s) && Counters(s) && ByDevice(a)
    ensures Counters(Step(s, a))
  {
    hide Step, Enabled, Effect, IsNext;
    DeviceStep(s, a);
  }

  lemma CountersKeptByPolls(s: Sys, a: Action)
    requires Shape(s) && Fresh(s) && Handshake(s) && Counters(s) && ByPolls(a)
    ensures Counters(Step(s, a))
  {
    hide Step, Check, MarkApplied, Shape, Handshake;
    PollFrame(s, a);
    if Admits(s, a) {
      AdmittedPoll(s.srv, s.ex[a.x].req);
    }
  }

  lemma CountersKeptByRekeys(s: Sys, a: Action)
    requires Shape(s) && Fresh(s) && Handshake(s) && Counters(s) && ByRekeys(a)
    ensures Counters(Step(s, a))
  {
    hide Step, Shape, Handshake, Enabled;
    RekeyFrame(s, a);
  }

  lemma CountersKeptByOperator(s: Sys, a: Action)
    requires Shape(s) && Fresh(s) && Handshake(s) && Counters(s) && ByOperator(a)
    ensures Counters(Step(s, a))
  {
    hide Step, Enabled, Effect, Check, Enqueue, IsNext, NothingDue, MarkApplied;
    OperatorStep(s, a);
  }

  lemma CountersKept(s: Sys, a: Action)
    requires Shape(s) && Fresh(s) && Handshake(s) && Counters(s)
    ensures Counters(Step(s, a))
  {
    hide Effect, Enabled, Step, Counters;
    if ByDevice(a) {
      CountersKeptByDevice(s, a);
    } else if ByPolls(a) {
      CountersKeptByPolls(s, a);
    } else if ByRekeys(a) {
      CountersKeptByRekeys(s, a);
    } else {
      CountersKeptByOperator(s, a);
    }
  }

  lemma AheadKeptByDevice(s: Sys, a: Action)
    requires Shape(s) && Fresh(s) && Handshake(s) && Counters(s) && Ahead(s) && ByDevice(a)
    ensures Ahead(Step(s, a))
  {
    hide Step, Enabled, Effect, IsNext;
    DeviceStep(s, a);
  }

  lemma AheadKeptByPolls(s: Sys, a: Action)
    requires Shape(s) && Fresh(s) && Handshake(s) && Counters(s) && Ahead(s) && ByPolls(a)
    ensures Ahead(Step(s, a))
  {
    hide Step, Check, MarkApplied, Fresh, Counters;
    PollFrame(s, a);
    if Admits(s, a) {
      AdmittedPoll(s.srv, s.ex[a.x].req);
    }
  }

  lemma AheadKeptByRekeys(s: Sys, a: Action)
    requires Shape(s) && Fresh(s) && Handshake(s) && Counters(s) && Ahead(s) && ByRekeys(a)
    ensures Ahead(Step(s, a))
  {
    hide Step, Fresh, Handshake, Counters, Enabled;
    RekeyFrame(s, a);
  }

  lemma AheadKeptByOperator(s: Sys, a: Action)
    requires Shape(s) && Fresh(s) && Handshake(s) && Counters(s) && Ahead(s) && ByOperator(a)
    ensures Ahead(Step(s, a))
  {
    hide Step, Enabled, Effect, Check, Enqueue, IsNext, NothingDue, MarkApplied;
    OperatorStep(s, a);
  }

  lemma AheadKept(s: Sys, a: Action)
    requires Shape(s) && Fresh(s) && Handshake(s) && Counters(s) && Ahead(s)
    ensures Ahead(Step(s, a))
  {
    hide Effect, Enabled, Step, Ahead;
    if ByDevice(a) {
      AheadKeptByDevice(s, a);
    } else if ByPolls(a) {
      AheadKeptByPolls(s, a);
    } else if ByRekeys(a) {
      AheadKeptByRekeys(s, a);
    } else {
      AheadKeptByOperator(s, a);
    }
  }

  // ---------------------------------------------------------------- the queue

  /** At most one pending row for each serial and key; only rows that the device acked are released. */
  ghost predicate QueueOk(rows: Queue, sn: string, cursor: nat, narrow: bool) {
    && 0 !in rows
    && (narrow ==> forall t :: t in rows && TargetsSerial(rows[t], sn) ==> t <= U32_MAX)
    && (forall t :: t in rows ==> rows[t].key != Some(""))
    && (forall t, u :: t in rows && u in rows && SamePending(rows[t], rows[u]) ==> t == u)
    && (forall t :: t in rows && rows[t].applied ==> rows[t].serial != FLEET && (rows[t].serial == sn ==> t <= cursor))
  }

  predicate SamePending(a: Row, b: Row) {
    a.key.Some? && a.key == b.key && a.serial == b.serial && !a.applied && !b.applied
  }

  lemma EnqueueKeepsQueue(rows: Queue, sn: string, cursor: nat, narrow: bool, q: nat, serial: string, key: Option<string>)
    requires QueueOk(rows, sn, cursor, narrow) && q > 0 && q !in rows
    ensures var more := Enqueue(rows, q, serial, key);
      QueueOk(more, sn, cursor, narrow && (TargetsSn(serial, sn) && q in more ==> q <= U32_MAX))
  {
  }

  lemma MarkKeepsQueue(rows: Queue, sn: string, cursor: nat, narrow: bool, serial: string, upto: nat, cursor': nat)
    requires QueueOk(rows, sn, cursor, narrow) && serial != FLEET && cursor <= cursor' && (serial == sn ==> upto <= cursor')
    ensures QueueOk(MarkApplied(rows, serial, upto), sn, cursor', narrow)
  {
  }

  lemma QueueUntouched(s: Sys, a: Action)
    requires !Admits(s, a) && !a.Submit? && !a.OtherAck?
    ensures var t := Step(s, a); t.srv.rows == s.srv.rows && t.sn == s.sn && t.srv.cursor == s.srv.cursor && t.narrow == s.narrow
  {
    hide Step, Admits;
    if ByDevice(a) {
      DeviceFrame(s, a);
    } else if ByPolls(a) {
      PollFrame(s, a);
    } else {
      RekeyFrame(s, a);
    }
  }

  lemma QueueKept(s: Sys, a: Action)
    requires s.sn != FLEET && QueueOk(s.srv.rows, s.sn, s.srv.cursor, s.narrow)
    ensures var t := Step(s, a); QueueOk(t.srv.rows, t.sn, t.srv.cursor, t.narrow)
  {
    hide Check, Enqueue, IsNext, NothingDue, MarkApplied, QueueOk;
    if Admits(s, a) {
      var cursor := Admit(s, s.ex[a.x].req).srv.cursor;
      MarkKeepsQueue(s.srv.rows, s.sn, s.srv.cursor, s.narrow, s.sn, cursor, cursor);
    } else if a.Submit? && Enabled(s, a) {
      EnqueueKeepsQueue(s.srv.rows, s.sn, s.srv.cursor, s.narrow, a.q, a.serial, a.key);
    } else if a.OtherAck? && Enabled(s, a) {
      MarkKeepsQueue(s.srv.rows, s.sn, s.srv.cursor, s.narrow, a.serial, a.upto, s.srv.cursor);
    } else if !a.Submit? && !a.OtherAck? {
      QueueUntouched(s, a);
    }
  }
}
