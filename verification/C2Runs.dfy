/** Runs of the C2 channel, put together: a re-key handshake, a served poll, an empty one; and the poll routine of
    the device as such a run. */
module C2Runs {
  import opened Machine
  import opened C2
  import opened C2Invariants
  import opened C2Delivery
  import opened C2Device

  // ---------------------------------------------------------------- runs one after another

  lemma RunSnoc(s: Sys, acts: seq<Action>, a: Action)
    ensures Run(s, acts + [a]) == Step(Run(s, acts), a)
  {
    hide Step;
    assert (acts + [a])[..|acts|] == acts;
  }

  lemma RunOfOne(s: Sys, a: Action)
    ensures Run(s, [a]) == Step(s, a)
  {
    hide Step;
    RunSnoc(s, [], a);
    assert [] + [a] == [a];
  }

  lemma RunOfTwo(s: Sys, a: Action, b: Action)
    ensures Run(s, [a, b]) == Step(Step(s, a), b)
  {
    hide Step;
    RunOfOne(s, a);
    RunSnoc(s, [a], b);
    assert [a] + [b] == [a, b];
  }

  lemma {:induction false} RunConcat(s: Sys, a: seq<Action>, b: seq<Action>)
    ensures Run(s, a + b) == Run(Run(s, a), b)
  {
    hide Step;
    if b == [] {
      assert a + b == a;
    } else {
      RunConcat(s, a, b[..|b| - 1]);
      assert (a + b)[..|a + b| - 1] == a + b[..|b| - 1];
    }
  }

  // ---------------------------------------------------------------- the handshake

  /** A device without a session that runs the handshake through, no message lost. */
  function Handshaken(s: Sys): Sys {
    s.(dev := Rekeyed(s.dev, s.nextSecret),
       ex := s.ex + [Exchange(Challenge, Nonce(s.nextNonce))] + [Exchange(Rekey(s.nextNonce, s.nextSecret), Installed)],
       nextNonce := s.nextNonce + 1, nextSecret := s.nextSecret + 1,
       srv := s.srv.(session := Some(s.nextSecret), last := 0, boot := false, nonce := None))
  }

  lemma ChallengeAnswered(s: Sys)
    requires s.pc.Idle? && !s.dev.magic
    ensures Step(Step(s, StartChallenge), ServeChallenge(|s.ex|)) ==
      s.(pc := AwaitChallenge(|s.ex|), ex := s.ex + [Exchange(Challenge, Nonce(s.nextNonce))],
         srv := s.srv.(nonce := Some(s.nextNonce)), nextNonce := s.nextNonce + 1)
  {
    hide Check;
    var t := Step(s, StartChallenge);
    assert (s.ex + [Exchange(Challenge, Sent)])[|s.ex| := Exchange(Challenge, Nonce(s.nextNonce))] ==
           s.ex + [Exchange(Challenge, Nonce(s.nextNonce))];
  }

  lemma RekeyAnswered(s: Sys, n: nat)
    requires s.pc.AwaitChallenge? && s.pc.x < |s.ex| && s.ex[s.pc.x].status == Nonce(n) && s.srv.nonce == Some(n)
    ensures Step(Step(s, GotNonce), ServeRekey(|s.ex|)) ==
      s.(pc := AwaitRekey(|s.ex|), ex := s.ex + [Exchange(Rekey(n, s.nextSecret), Installed)], nextSecret := s.nextSecret + 1,
         srv := s.srv.(session := Some(s.nextSecret), last := 0, boot := false, nonce := None))
  {
    hide Check;
    var t := Step(s, GotNonce);
    assert (s.ex + [Exchange(Rekey(n, s.nextSecret), Sent)])[|s.ex| := Exchange(Rekey(n, s.nextSecret), Installed)] ==
           s.ex + [Exchange(Rekey(n, s.nextSecret), Installed)];
  }

  lemma InstalledTaken(s: Sys, secret: nat)
    requires s.pc.AwaitRekey? && s.pc.x < |s.ex| && s.ex[s.pc.x].status.Installed? && s.ex[s.pc.x].req.Rekey?
    requires s.ex[s.pc.x].req.secret == secret
    ensures Step(s, GotInstalled) == s.(dev := Rekeyed(s.dev, secret), pc := Idle)
  {
    hide Check;
  }

  lemma HandshakeRuns(s: Sys) returns (acts: seq<Action>)
    requires s.pc.Idle? && !s.dev.magic
    ensures |acts| == 5 && Run(s, acts) == Handshaken(s)
  {
    hide Step;
    var n := |s.ex|;
    var a, b := [StartChallenge, ServeChallenge(n)], [GotNonce, ServeRekey(n + 1)];
    ChallengeAnswered(s);
    RunOfTwo(s, StartChallenge, ServeChallenge(n));
    var s2 := Run(s, a);
    RekeyAnswered(s2, s.nextNonce);
    RunOfTwo(s2, GotNonce, ServeRekey(n + 1));
    var s4 := Run(s2, b);
    InstalledTaken(s4, s.nextSecret);
    RunConcat(s, a, b);
    RunSnoc(s, a + b, GotInstalled);
    acts := a + b + [GotInstalled];
  }

  // ---------------------------------------------------------------- one poll

  function PollOf(d: Dev): Req {
    Poll(d.ack, d.counter, d.secret, false)
  }

  /** The device's next poll would pass the backend's check. */
  ghost predicate NextPollAccepted(s: Sys) {
    Check(s.srv, PollOf(Bumped(s.dev))).ok
  }

  lemma RekeyedPollPasses(s: Sys)
    ensures NextPollAccepted(Handshaken(s))
  {
  }

  /** The cursor that the device's next poll is served from. */
  function NextCursor(s: Sys): nat {
    if s.dev.ack > s.srv.cursor then s.dev.ack else s.srv.cursor
  }

  /** Same commands due, same delivery history. */
  ghost predicate SameDelivery(s: Sys, t: Sys) {
    && t.sn == s.sn && t.acked == s.acked && t.actioned == s.actioned && t.narrow == s.narrow && t.ordered == s.ordered
    && t.srv.rows.Keys == s.srv.rows.Keys
    && forall applied: nat, q: nat :: Due(t.srv.rows, t.sn, applied, q) <==> Due(s.srv.rows, s.sn, applied, q)
  }

  lemma PollStarted(s: Sys)
    requires s.pc.Idle? && s.dev.magic
    ensures Step(s, StartPoll(false)) ==
      s.(dev := Bumped(s.dev), pc := AwaitPoll(|s.ex|), ex := s.ex + [Exchange(PollOf(Bumped(s.dev)), Sent)],
         wrapped := s.wrapped || Bumped(s.dev).counter == 0)
  {
    hide Check;
  }

  /** Whatever the queue holds, the backend has an answer. */
  lemma PickReply(rows: Queue, sn: string, applied: nat) returns (reply: Option<nat>)
    ensures if reply.Some? then IsNext(rows, sn, applied, reply.value) else NothingDue(rows, sn, applied)
  {
    var due := set q | q in rows && Due(rows, sn, applied, q);
    if due == {} {
      reply := None;
      forall q: nat
        ensures !Due(rows, sn, applied, q)
      {
        assert q !in due;
      }
    } else {
      var q := Least(due);
      reply := Some(q);
      forall u: nat | Due(rows, sn, applied, u)
        ensures q <= u
      {
        assert u in due;
      }
    }
  }

  lemma Least(qs: set<nat>) returns (q: nat)
    requires qs != {}
    ensures q in qs && forall u :: u in qs ==> q <= u
  {
    q :| q in qs;
    if qs != {q} {
      var p := Least(qs - {q});
      assert forall u :: u in qs ==> u == q || u in qs - {q};
      q := if p < q then p else q;
    }
  }

  /** An accepted poll of the device, answered with the next command or with nothing. */
  lemma PollAnswered(s: Sys, reply: Option<nat>)
    requires s.pc.Idle? && s.dev.magic && NextPollAccepted(s)
    requires if reply.Some? then IsNext(s.srv.rows, s.sn, NextCursor(s), reply.value) else NothingDue(s.srv.rows, s.sn, NextCursor(s))
    ensures var t := Step(Step(s, StartPoll(false)), ServePoll(|s.ex|, reply));
      && t.dev == Bumped(s.dev) && t.pc == AwaitPoll(|s.ex|) && SameDelivery(s, t) && t.ran == s.ran
      && |t.ex| == |s.ex| + 1 && t.ex[|s.ex|].status == (if reply.Some? then Served(reply.value) else Empty)
      && t.accepted == s.accepted + [(s.dev.secret, Bumped(s.dev).counter as U64)]
  {
    PollStarted(s);
    var u := Step(s, StartPoll(false));
    AdmittedPoll(u.srv, PollOf(Bumped(s.dev)));
    MarkKeepsDue(s.srv.rows, s.sn, NextCursor(s), s.sn);
    hide Check, MarkApplied, Due;
    assert u.ex[|s.ex|] == Exchange(PollOf(Bumped(s.dev)), Sent);
    assert Enabled(u, ServePoll(|s.ex|, reply));
  }

  lemma EmptyTaken(s: Sys)
    requires s.pc.AwaitPoll? && s.pc.x < |s.ex| && s.ex[s.pc.x].status.Empty?
    ensures Step(s, GotEmpty) == s.(pc := Idle)
  {
    hide Check;
  }

  lemma ScriptRunsOnce(s: Sys, q: nat, intent: Intent)
    requires s.pc.AwaitPoll? && s.pc.x < |s.ex| && s.ex[s.pc.x].status == Served(q)
    ensures Step(Step(s, GotScript), ScriptDone(intent)) == s.(pc := Ran(q, intent), ran := s.ran + [q])
  {
    hide Check;
  }

  lemma AckStored(s: Sys, q: nat, intent: Intent)
    requires s.pc == Ran(q, intent)
    ensures Step(s, PersistAck) == s.(dev := AckPersisted(s.dev, q), pc := Acked(q, intent), acked := s.acked + [q])
  {
    hide Check;
  }

  lemma Restarted(s: Sys, cold: bool)
    ensures Step(s, Crash(cold)) == s.(dev := if cold then Dropped(s.dev) else s.dev, pc := Idle)
  {
    hide Check;
  }

  // ---------------------------------------------------------------- the poll routine is such a run

  /** What the backend and the radio can do to one poll: a new secret is a fresh one, and an answer needs an
      accepted poll and is the next command, or none if nothing is due. */
  ghost predicate Possible(s: Sys, e: Env, served: nat) {
    && (!s.dev.magic && e.rekey.Some? ==> e.rekey.value == s.nextSecret)
    && (Polls(s.dev, e) && !e.reply.Failed? ==>
          && (s.dev.magic ==> NextPollAccepted(s))
          && match e.reply
             case NoContent => NothingDue(s.srv.rows, s.sn, NextCursor(s))
             case Body(q, _) => IsNext(s.srv.rows, s.sn, NextCursor(s), served) && (q.Some? ==> q.value == served))
  }

  /** How a poll of a device with a session ends, in terms of the system. */
  ghost predicate PollEnds(s: Sys, t: Sys, e: Env, served: nat) {
    && t.sn == s.sn && t.actioned == s.actioned && t.narrow == s.narrow && t.ordered == s.ordered
    && t.srv.rows.Keys == s.srv.rows.Keys
    && (forall applied: nat, q: nat :: Due(t.srv.rows, t.sn, applied, q) <==> Due(s.srv.rows, s.sn, applied, q))
    && t.ran == s.ran + (if Polls(s.dev, e) && e.reply.Body? then [served] else [])
    && t.acked == s.acked + (if Polls(s.dev, e) && e.reply.Body? && e.reply.seq_.Some? then [served] else [])
    && t.pc == if Polls(s.dev, e) && e.reply.Body? && e.reply.seq_.Some? then Acked(served, LastIntent(e.reply.calls).0) else Idle
  }

  /** The device's poll routine takes the device steps of the system: from rest, every outcome that the backend and
      the radio can give one poll, with nothing else happening meanwhile, is a run of the system that ends in the
      state the routine ends in, with the script run and the ack stored that the routine says. A reply without its
      seq header is a script run that nothing acknowledges. */
  lemma PollIsRun(s: Sys, e: Env, served: nat) returns (acts: seq<Action>)
    requires s.pc.Idle? && Possible(s, e, served)
    ensures var t := Run(s, acts); t.dev == AfterPoll(s.dev, e) && PollEnds(s, t, e, served)
  {
    hide Step, Due, IsNext, NothingDue, NextPollAccepted, LastIntent;
    if !e.url || !e.https || !e.serial || !e.bonded {
      acts := [];
    } else if s.dev.magic {
      acts := SessionPollIsRun(s, e, served);
    } else if e.rekey.None? {
      acts := [StartChallenge, GiveUp];
      RunOfTwo(s, StartChallenge, GiveUp);
      HandshakeAbandoned(s);
    } else {
      var shake := HandshakeRuns(s);
      RekeyedPollPasses(s);
      var rest := SessionPollIsRun(Handshaken(s), e, served);
      RunConcat(s, shake, rest);
      acts := shake + rest;
    }
  }

  lemma HandshakeAbandoned(s: Sys)
    requires s.pc.Idle? && !s.dev.magic
    ensures Step(Step(s, StartChallenge), GiveUp) == s.(ex := s.ex + [Exchange(Challenge, Sent)])
  {
    hide Check;
  }

  lemma PollAbandoned(s: Sys)
    requires s.pc.Idle? && s.dev.magic
    ensures var t := Step(Step(s, StartPoll(false)), GiveUp);
      t.dev == Dropped(Bumped(s.dev)) && t.pc == Idle && t.srv == s.srv && SameDelivery(s, t) && t.ran == s.ran && t.accepted == s.accepted
  {
    PollStarted(s);
    hide Check;
  }

  lemma PollNotSent(s: Sys)
    requires s.pc.Idle? && s.dev.magic
    ensures var t := Step(s, PollAborted);
      t.dev == Bumped(s.dev) && t.pc == Idle && t.srv == s.srv && SameDelivery(s, t) && t.ran == s.ran
  {
    hide Check;
  }

  lemma SessionPollIsRun(s: Sys, e: Env, served: nat) returns (acts: seq<Action>)
    requires s.pc.Idle? && s.dev.magic && Possible(s, e, served) && e.url && e.https && e.serial && e.bonded
    ensures var t := Run(s, acts); t.dev == AfterPoll(s.dev, e) && PollEnds(s, t, e, served)
  {
    hide Step, IsNext, NothingDue, NextPollAccepted, LastIntent;
    if !e.urlFits || !e.allocates {
      acts := [PollAborted];
      RunOfOne(s, PollAborted);
      PollNotSent(s);
    } else if e.reply.Failed? {
      acts := [StartPoll(false), GiveUp];
      RunOfTwo(s, StartPoll(false), GiveUp);
      PollAbandoned(s);
    } else if e.reply.NoContent? {
      var first := [StartPoll(false), ServePoll(|s.ex|, None)];
      PollAnswered(s, None);
      RunOfTwo(s, StartPoll(false), ServePoll(|s.ex|, None));
      EmptyTaken(Run(s, first));
      RunSnoc(s, first, GotEmpty);
      acts := first + [GotEmpty];
    } else {
      acts := CommandPollIsRun(s, e, served);
    }
  }

  lemma CommandPollIsRun(s: Sys, e: Env, served: nat) returns (acts: seq<Action>)
    requires s.pc.Idle? && s.dev.magic && Possible(s, e, served) && Polls(s.dev, e) && e.reply.Body?
    ensures var t := Run(s, acts); t.dev == AfterPoll(s.dev, e) && PollEnds(s, t, e, served)
  {
    hide Step, IsNext, NothingDue, NextPollAccepted, LastIntent;
    var intent := LastIntent(e.reply.calls).0;
    var first, second := [StartPoll(false), ServePoll(|s.ex|, Some(served))], [GotScript, ScriptDone(intent)];
    PollAnswered(s, Some(served));
    RunOfTwo(s, StartPoll(false), ServePoll(|s.ex|, Some(served)));
    var t := Run(s, first);
    ScriptRunsOnce(t, served, intent);
    RunOfTwo(t, GotScript, ScriptDone(intent));
    RunConcat(s, first, second);
    var last := if e.reply.seq_.Some? then PersistAck else Crash(false);
    AckStored(Run(t, second), served, intent);
    Restarted(Run(t, second), false);
    RunSnoc(s, first + second, last);
    acts := first + second + [last];
  }

  // ---------------------------------------------------------------- one command, from anywhere

  /** From any state, after a restart that loses the session, one poll runs and acks the next command. */
  lemma NextCommandAcked(s: Sys, q: nat) returns (acts: seq<Action>)
    requires s.srv.cursor <= s.dev.ack && IsNext(s.srv.rows, s.sn, s.dev.ack, q)
    ensures var t := Run(s, acts);
      && t.acked == s.acked + [q] && t.ran == s.ran + [q] && t.dev.ack == StrToUl(q) && t.sn == s.sn && t.narrow == s.narrow
      && t.srv.rows.Keys == s.srv.rows.Keys
      && forall applied: nat, u: nat :: Due(t.srv.rows, t.sn, applied, u) <==> Due(s.srv.rows, s.sn, applied, u)
  {
    hide Step, IsNext;
    Restarted(s, true);
    RunOfOne(s, Crash(true));
    var u := Step(s, Crash(true));
    var e := Env(true, true, true, true, Some(u.nextSecret), true, true, Body(Some(q), []));
    var rest := PollIsRun(u, e, q);
    RunConcat(s, [Crash(true)], rest);
    acts := [Crash(true)] + rest;
  }
}
