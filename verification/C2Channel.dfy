/** The theorems about whole runs of the C2 channel. */
module C2Channel {
  import opened Machine
  import opened C2
  import opened C2Invariants
  import opened C2Delivery
  import opened C2Runs
  import Session

  // ---------------------------------------------------------------- the order of script runs

  /** A run history without immediate repetitions. */
  ghost function Collapse(r: seq<nat>): seq<nat> {
    if r == [] then []
    else if |r| > 1 && r[|r| - 1] == r[|r| - 2] then Collapse(r[..|r| - 1])
    else Collapse(r[..|r| - 1]) + [r[|r| - 1]]
  }

  lemma {:induction false} CollapseEnds(r: seq<nat>)
    requires r != []
    ensures Collapse(r) != [] && Collapse(r)[|Collapse(r)| - 1] == r[|r| - 1]
  {
    if |r| > 1 && r[|r| - 1] == r[|r| - 2] {
      CollapseEnds(r[..|r| - 1]);
    }
  }

  lemma CollapseAppend(r: seq<nat>, q: nat)
    ensures Collapse(r + [q]) == if r != [] && r[|r| - 1] == q then Collapse(r) else Collapse(r) + [q]
  {
    assert (r + [q])[..|r|] == r;
  }

  ghost predicate RunsInOrder(s: Sys) {
    s.ordered && s.narrow ==>
      match s.pc
      case Script(q) => Collapse(s.ran) == s.acked + [q]
      case Ran(q, _) => Collapse(s.ran) == s.acked + [q]
      case _ =>
        Collapse(s.ran) == s.acked
        || (s.ran != [] && Collapse(s.ran) == s.acked + [s.ran[|s.ran| - 1]] && IsNext(s.srv.rows, s.sn, s.dev.ack, s.ran[|s.ran| - 1]))
  }

  lemma ScriptRuns(s: Sys)
    requires Shape(s) && Cursor(s) && Lowest(s) && History(s) && RunsInOrder(s) && Enabled(s, GotScript) && s.ordered && s.narrow
    ensures Collapse(s.ran + [s.ex[s.pc.x].status.q]) == s.acked + [s.ex[s.pc.x].status.q]
  {
    hide Check, MarkApplied, IsNext;
    NextRun(s.ran, s.acked, s.dev.ack, s.srv.rows, s.sn, s.ex[s.pc.x].status.q);
  }

  /** The next command is the one last run, or a new one that follows the acked ones. */
  lemma NextRun(ran: seq<nat>, acked: seq<nat>, ack: nat, rows: Queue, sn: string, q: nat)
    requires IsNext(rows, sn, ack, q) && (acked != [] ==> acked[|acked| - 1] == ack)
    requires Collapse(ran) == acked
      || (ran != [] && Collapse(ran) == acked + [ran[|ran| - 1]] && IsNext(rows, sn, ack, ran[|ran| - 1]))
    ensures Collapse(ran + [q]) == acked + [q]
  {
    hide Collapse;
    CollapseAppend(ran, q);
    if ran != [] {
      CollapseEnds(ran);
    }
  }

  lemma RunsInOrderKeptByDevice(s: Sys, a: Action)
    requires Shape(s) && Cursor(s) && Lowest(s) && History(s) && RunsInOrder(s) && ByDevice(a)
    ensures RunsInOrder(Step(s, a))
  {
    hide Step, Enabled, Effect, Collapse, History, Cursor;
    DeviceStep(s, a);
    if s.ordered && s.narrow && Enabled(s, a) {
      if a.GotScript? {
        ScriptRuns(s);
      } else if a.Crash? && (s.pc.Script? || s.pc.Ran?) {
        RunningIsLast(s);
      }
    }
  }

  lemma RunningIsLast(s: Sys)
    requires RunsInOrder(s) && (s.pc.Script? || s.pc.Ran?) && s.ordered && s.narrow
    ensures s.ran != [] && s.ran[|s.ran| - 1] == s.pc.q
  {
    if s.ran != [] {
      CollapseEnds(s.ran);
    }
  }

  /** The other steps change no history, and an orderly submission keeps the lowest pending command. */
  lemma BackendFrame(s: Sys, a: Action)
    requires !ByDevice(a)
    ensures var t := Step(s, a);
      && t.ran == s.ran && t.acked == s.acked && t.pc == s.pc && t.dev == s.dev && t.sn == s.sn
      && (t.ordered ==> s.ordered) && (t.narrow ==> s.narrow)
      && forall q: nat :: s.dev.ack < q && t.ordered && IsNext(s.srv.rows, s.sn, s.dev.ack, q) ==> IsNext(t.srv.rows, s.sn, s.dev.ack, q)
  {
    hide Check, Enqueue, MarkApplied;
    if Enabled(s, a) {
      if a.Submit? {
        EnqueueKeepsDue(s.srv.rows, a.q, a.serial, a.key, s.sn);
      } else if a.OtherAck? {
        MarkKeepsDue(s.srv.rows, a.serial, a.upto, s.sn);
      } else if a.ForgePoll? {
        ForgeryRefused(s, a.ack, a.c, a.secret);
      } else if Admits(s, a) {
        MarkKeepsDue(s.srv.rows, s.sn, Admit(s, s.ex[a.x].req).srv.cursor, s.sn);
      }
    }
  }

  lemma RunsInOrderKept(s: Sys, a: Action)
    requires Shape(s) && Cursor(s) && Lowest(s) && History(s) && RunsInOrder(s)
    ensures RunsInOrder(Step(s, a))
  {
    hide Step, Collapse, Shape, Cursor, Lowest, History;
    if ByDevice(a) {
      RunsInOrderKeptByDevice(s, a);
    } else {
      BackendFrame(s, a);
    }
  }

  // ---------------------------------------------------------------- every run

  ghost predicate Inv(s: Sys) {
    && s.sn != FLEET
    && Shape(s) && Fresh(s) && Handshake(s) && Counters(s) && Ahead(s)
    && QueueOk(s.srv.rows, s.sn, s.srv.cursor, s.narrow)
    && Cursor(s) && Lowest(s) && History(s) && NoneSkipped(s) && RunsInOrder(s)
  }

  lemma SerialFixed(s: Sys, a: Action)
    ensures Step(s, a).sn == s.sn
  {
    hide Step;
    if ByDevice(a) {
      DeviceFrame(s, a);
    } else {
      BackendFrame(s, a);
    }
  }

  lemma InvKept(s: Sys, a: Action)
    requires Inv(s)
    ensures Inv(Step(s, a))
  {
    hide Step, Shape, Fresh, Handshake, Counters, Ahead, QueueOk, Cursor, Lowest, History, NoneSkipped, RunsInOrder;
    SerialFixed(s, a);
    ShapeKept(s, a);
    FreshKept(s, a);
    HandshakeKept(s, a);
    CountersKept(s, a);
    AheadKept(s, a);
    QueueKept(s, a);
    CursorKept(s, a);
    LowestKept(s, a);
    HistoryKept(s, a);
    NoneSkippedKept(s, a);
    RunsInOrderKept(s, a);
  }

  lemma {:induction false} InvOverRuns(s: Sys, acts: seq<Action>)
    requires Inv(s)
    ensures Inv(Run(s, acts))
  {
    hide Inv, Step;
    if acts != [] {
      InvOverRuns(s, acts[..|acts| - 1]);
      InvKept(Run(s, acts[..|acts| - 1]), acts[|acts| - 1]);
    }
  }

  lemma InvAtStart(sn: string, noise: Dev)
    requires sn != FLEET
    ensures Inv(Start(sn, noise))
  {
  }

  // ---------------------------------------------------------------- delivery

  /** If this device's commands become visible in seq order and fit 32 bits, then over every run with crashes, lost
      responses and re-keys: the acks rise, exactly the device's commands up to its ack have been acked, and
      the scripts it ran are those, in that order, with at most one more that it is about to run again; a
      repetition is of the command in hand. */
  lemma CommandsRunInOrderNoneSkipped(sn: string, noise: Dev, acts: seq<Action>)
    requires sn != FLEET
    ensures var s := Run(Start(sn, noise), acts);
      s.ordered && s.narrow ==>
        && Rising(s.acked)
        && (forall t: nat :: t in s.acked <==> Due(s.srv.rows, sn, 0, t) && t <= s.dev.ack)
        && (Collapse(s.ran) == s.acked || exists q :: Collapse(s.ran) == s.acked + [q] && IsNext(s.srv.rows, sn, s.dev.ack, q))
  {
    InvAtStart(sn, noise);
    InvOverRuns(Start(sn, noise), acts);
    var s := Run(Start(sn, noise), acts);
    SerialOverRun(Start(sn, noise), acts);
    hide Run, Collapse, Shape, Fresh, Handshake, Counters, Ahead, Cursor, QueueOk;
    if s.ordered && s.narrow {
      AckedAtMostAck(s);
      if Collapse(s.ran) != s.acked {
        var q := if s.pc.Script? || s.pc.Ran? then s.pc.q else s.ran[|s.ran| - 1];
        assert Collapse(s.ran) == s.acked + [q] && IsNext(s.srv.rows, sn, s.dev.ack, q);
      }
    }
  }

  lemma AckedAtMostAck(s: Sys)
    requires History(s) && s.narrow
    ensures forall t: nat :: t in s.acked ==> t <= s.dev.ack
  {
    forall t: nat | t in s.acked
      ensures t <= s.dev.ack
    {
      var i :| 0 <= i < |s.acked| && s.acked[i] == t;
      if i < |s.acked| - 1 {
        assert s.acked[i] < s.acked[|s.acked| - 1];
      }
    }
  }

  lemma {:induction false} SerialOverRun(s: Sys, acts: seq<Action>)
    ensures Run(s, acts).sn == s.sn
  {
    hide Step;
    if acts != [] {
      SerialOverRun(s, acts[..|acts| - 1]);
      SerialFixed(Run(s, acts[..|acts| - 1]), acts[|acts| - 1]);
    }
  }

  /** The reboot, refresh or sleep intent of a seq is actioned at most once and only after its ack is stored,
      however the commits were ordered. */
  lemma IntentsActionedOnce(sn: string, noise: Dev, acts: seq<Action>)
    requires sn != FLEET
    ensures var s := Run(Start(sn, noise), acts);
      s.narrow ==> Rising(s.acked) && Rising(s.actioned) && forall i :: 0 <= i < |s.actioned| ==> s.actioned[i] in s.acked
  {
    InvAtStart(sn, noise);
    InvOverRuns(Start(sn, noise), acts);
  }

  /** Only acks that the device stored move its cursor: stale polls do not advance it, and polls made without the
      session secret are refused. */
  lemma CursorBehindAck(sn: string, noise: Dev, acts: seq<Action>)
    requires sn != FLEET
    ensures Run(Start(sn, noise), acts).srv.cursor <= Run(Start(sn, noise), acts).dev.ack
  {
    InvAtStart(sn, noise);
    InvOverRuns(Start(sn, noise), acts);
  }

  // ---------------------------------------------------------------- sessions

  /** Each (secret, counter) is accepted at most once, in rising order within a secret, replays included. */
  lemma CountersAcceptedOnce(sn: string, noise: Dev, acts: seq<Action>)
    requires sn != FLEET
    ensures var acc := Run(Start(sn, noise), acts).accepted;
      forall i, j :: 0 <= i < j < |acc| && acc[i].0 == acc[j].0 ==> acc[i].1 < acc[j].1
  {
    InvAtStart(sn, noise);
    InvOverRuns(Start(sn, noise), acts);
  }

  /** The device awaits the answer to a poll that the backend has not yet looked at. */
  predicate PollOutstanding(s: Sys) {
    s.pc.AwaitPoll? && s.pc.x < |s.ex| && s.ex[s.pc.x].req.Poll? && s.ex[s.pc.x].status.Sent?
  }

  lemma OutstandingPollVerdict(s: Sys)
    requires Shape(s) && Handshake(s) && Counters(s) && Ahead(s) && !s.wrapped
    requires PollOutstanding(s)
    ensures Check(s.srv, s.ex[s.pc.x].req).ok <==> s.ex[s.pc.x].req.c <= s.srv.last + Session.WINDOW_FAR
  {
  }

  /** An honest device's outstanding poll is accepted exactly when its counter is within the window of the
      last accepted one; nothing that was lost, delayed or replayed before can make it fail otherwise. */
  lemma HonestPollAcceptedIffInWindow(sn: string, noise: Dev, acts: seq<Action>)
    requires sn != FLEET
    ensures var s := Run(Start(sn, noise), acts);
      PollOutstanding(s) && !s.wrapped ==>
        (Check(s.srv, s.ex[s.pc.x].req).ok <==> s.ex[s.pc.x].req.c <= s.srv.last + 4096)
  {
    InvAtStart(sn, noise);
    InvOverRuns(Start(sn, noise), acts);
    hide Run, Start, Check, Handshake, Counters, Ahead, Cursor, Lowest, History, NoneSkipped, RunsInOrder, QueueOk, Fresh;
    var s := Run(Start(sn, noise), acts);
    if PollOutstanding(s) && !s.wrapped {
      OutstandingPollVerdict(s);
    }
  }

  /** Without a session: challenge, re-key, poll, with no message lost, ends in an accepted poll, whatever
      was lost, delayed or abandoned before. */
  lemma RekeyedPollAccepted(s: Sys) returns (acts: seq<Action>)
    requires s.pc.Idle? && !s.dev.magic
    ensures |acts| == 7 && Run(s, acts).accepted == s.accepted + [(s.nextSecret, 1)]
  {
    hide Step;
    var shake := HandshakeRuns(s);
    var t := Handshaken(s);
    RekeyedPollPasses(s);
    var poll := AcceptedPoll(t);
    RunConcat(s, shake, poll);
    acts := shake + poll;
  }

  /** A poll that passes the check is answered, whatever the queue holds. */
  lemma AcceptedPoll(s: Sys) returns (acts: seq<Action>)
    requires s.pc.Idle? && s.dev.magic && NextPollAccepted(s)
    ensures |acts| == 2 && Run(s, acts).accepted == s.accepted + [(s.dev.secret, Bumped(s.dev).counter as U64)]
  {
    hide Step, NextPollAccepted;
    var reply := PickReply(s.srv.rows, s.sn, NextCursor(s));
    PollAnswered(s, reply);
    RunOfTwo(s, StartPoll(false), ServePoll(|s.ex|, reply));
    acts := [StartPoll(false), ServePoll(|s.ex|, reply)];
  }

  /** A poll that fails, whatever the reason, drops the session. */
  lemma FailedPollDropsSession(s: Sys)
    requires s.pc.AwaitPoll?
    ensures !Step(s, GiveUp).dev.magic && Step(s, GiveUp).pc.Idle?
  {
    hide Check;
  }

  /** A held poll that runs out of time is answered with nothing, and the device keeps its session. */
  lemma ExpiredHoldKeepsSession(s: Sys)
    requires s.pc.AwaitPoll? && s.pc.x < |s.ex| && s.ex[s.pc.x].status.Holding?
    ensures var t := Step(Step(s, HoldExpire(s.pc.x)), GotEmpty);
      t.pc.Idle? && t.dev == s.dev && t.srv == s.srv && t.ran == s.ran
  {
    hide Step, Enabled, Effect, Check, Admit, IsNext;
    PollStep(s, HoldExpire(s.pc.x));
    DeviceStep(Step(s, HoldExpire(s.pc.x)), GotEmpty);
  }

  /** A challenge is good for one installed secret: once it was used, or has expired, no re-key request, sent or
      replayed, changes the session before the next challenge. */
  lemma NonceIsSingleUse(s: Sys, x: nat, y: nat)
    ensures var t := Step(s, ExpireNonce);
      Step(t, ServeRekey(y)).srv == t.srv && Step(t, ReplayRekey(y)).srv == t.srv
    ensures var t := Step(s, ServeRekey(x));
      t.srv.session != s.srv.session ==> Step(t, ServeRekey(y)).srv == t.srv && Step(t, ReplayRekey(y)).srv == t.srv
  {
    hide Step, Enabled, Effect;
    RekeyStep(s, ExpireNonce);
    RekeyStep(s, ServeRekey(x));
    RekeyStep(Step(s, ExpireNonce), ServeRekey(y));
    RekeyStep(Step(s, ExpireNonce), ReplayRekey(y));
    RekeyStep(Step(s, ServeRekey(x)), ServeRekey(y));
    RekeyStep(Step(s, ServeRekey(x)), ReplayRekey(y));
  }

  /** No reachable state locks an honest device out: from rest, once messages get through, it is accepted. */
  lemma NeverLockedOut(sn: string, noise: Dev, acts: seq<Action>) returns (more: seq<Action>)
    requires Run(Start(sn, noise), acts).pc.Idle?
    ensures |more| <= 10
    ensures |Run(Run(Start(sn, noise), acts), more).accepted| > |Run(Start(sn, noise), acts).accepted|
  {
    more := Recovery(Run(Start(sn, noise), acts));
  }

  lemma Recovery(s: Sys) returns (more: seq<Action>)
    requires s.pc.Idle?
    ensures |more| <= 10 && |Run(s, more).accepted| > |s.accepted|
  {
    hide Step, NextPollAccepted;
    if !s.dev.magic {
      more := RekeyedPollAccepted(s);
    } else if NextPollAccepted(s) {
      more := AcceptedPoll(s);
    } else {
      PollAbandoned(s);
      RunOfTwo(s, StartPoll(false), GiveUp);
      var rest := RekeyedPollAccepted(Run(s, [StartPoll(false), GiveUp]));
      RunConcat(s, [StartPoll(false), GiveUp], rest);
      more := [StartPoll(false), GiveUp] + rest;
    }
  }

  // ---------------------------------------------------------------- the queue

  /** A keyed command that is still pending is the only one, and submitting it again changes nothing. */
  lemma PendingIsUnique(sn: string, noise: Dev, acts: seq<Action>, q: nat, t: nat)
    requires sn != FLEET
    ensures var rows := Run(Start(sn, noise), acts).srv.rows;
      t in rows && rows[t].key.Some? && !rows[t].applied ==>
        && Enqueue(rows, q, rows[t].serial, rows[t].key) == rows
        && forall u :: u in rows && Pending(rows[u], rows[t].serial, rows[t].key.value) ==> u == t
  {
    InvAtStart(sn, noise);
    InvOverRuns(Start(sn, noise), acts);
    hide Run, Shape, Fresh, Handshake, Counters, Ahead, Cursor, Lowest, History, NoneSkipped, RunsInOrder;
    var rows := Run(Start(sn, noise), acts).srv.rows;
    if t in rows && rows[t].key.Some? && !rows[t].applied {
      assert Pending(rows[t], rows[t].serial, rows[t].key.value);
      forall u | u in rows && Pending(rows[u], rows[t].serial, rows[t].key.value)
        ensures u == t
      {
        assert SamePending(rows[t], rows[u]);
      }
    }
  }

  lemma ReleasedRow(s: Sys, t: nat)
    requires QueueOk(s.srv.rows, s.sn, s.srv.cursor, s.narrow) && Cursor(s) && NoneSkipped(s)
    requires t in s.srv.rows && s.srv.rows[t].applied
    ensures s.srv.rows[t].serial != FLEET
    ensures s.srv.rows[t].serial == s.sn ==> t <= s.dev.ack && (s.ordered && s.narrow ==> t in s.acked)
  {
    if s.srv.rows[t].serial == s.sn && s.ordered && s.narrow {
      assert Due(s.srv.rows, s.sn, 0, t);
    }
  }

  /** A command of this device is released for re-submission only after the device acked it; a fleet
      command never is. */
  lemma ReleasedOnlyWhenAcked(sn: string, noise: Dev, acts: seq<Action>, t: nat)
    requires sn != FLEET
    ensures var s := Run(Start(sn, noise), acts);
      t in s.srv.rows && s.srv.rows[t].applied ==>
        && s.srv.rows[t].serial != FLEET
        && (s.srv.rows[t].serial == sn ==> t <= s.dev.ack && (s.ordered && s.narrow ==> t in s.acked))
  {
    InvAtStart(sn, noise);
    InvOverRuns(Start(sn, noise), acts);
    SerialOverRun(Start(sn, noise), acts);
    hide Run, Shape, Fresh, Handshake, Counters, Ahead, Lowest, History, RunsInOrder, QueueOk, Cursor, NoneSkipped;
    var s := Run(Start(sn, noise), acts);
    if t in s.srv.rows && s.srv.rows[t].applied {
      ReleasedRow(s, t);
    }
  }
}
