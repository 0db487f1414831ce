/** What the delivery promise comes to when commands commit out of order or their seqs do not fit the device: which
    commands can still be delivered, in every reachable state. */
module C2Deliverable {
  import opened Machine
  import opened C2
  import opened C2Invariants
  import opened C2Delivery
  import opened C2Runs
  import opened C2Channel

  // ---------------------------------------------------------------- acks

  /** Storing the ack of the command just run closes it exactly if its seq fits 32 bits; a larger one stays
      due and is served and run again. */
  lemma AckClosesIffNarrow(s: Sys)
    requires Cursor(s) && s.pc.Ran?
    ensures Due(s.srv.rows, s.sn, Step(s, PersistAck).dev.ack, s.pc.q) <==> s.pc.q >= 0x1_0000_0000
  {
    hide Check;
  }

  lemma AckGrows(s: Sys, a: Action)
    requires Cursor(s)
    ensures s.dev.ack <= Step(s, a).dev.ack
    ensures forall t: nat :: t in Step(s, a).acked ==> t in s.acked || t > s.dev.ack
  {
    if ByDevice(a) {
      AckGrowsByDevice(s, a);
    } else {
      hide Step;
      BackendFrame(s, a);
    }
  }

  lemma AckGrowsByDevice(s: Sys, a: Action)
    requires Cursor(s) && ByDevice(a)
    ensures s.dev.ack <= Step(s, a).dev.ack
    ensures forall t: nat :: t in Step(s, a).acked ==> t in s.acked || t > s.dev.ack
  {
    hide Step, Enabled, Effect, IsNext;
    DeviceStep(s, a);
  }

  /** What a step runs was above the ack. */
  lemma RanAboveAck(s: Sys, a: Action)
    requires Shape(s) && Cursor(s)
    ensures var t := Step(s, a);
      t.ran == s.ran || (|t.ran| == |s.ran| + 1 && t.ran[..|s.ran|] == s.ran && t.ran[|s.ran|] > s.dev.ack)
  {
    if ByDevice(a) {
      hide Check, Enqueue, IsNext, NothingDue, MarkApplied, Admit, Install;
    } else {
      hide Step;
      BackendFrame(s, a);
    }
  }

  /** From any state on, every script run and every ack is of a command above the ack of that state. */
  lemma {:induction false} LaterRunsAboveAck(s: Sys, acts: seq<Action>)
    requires Inv(s)
    ensures var t := Run(s, acts);
      && s.dev.ack <= t.dev.ack
      && |s.ran| <= |t.ran| && t.ran[..|s.ran|] == s.ran && (forall i :: |s.ran| <= i < |t.ran| ==> t.ran[i] > s.dev.ack)
      && forall q: nat :: q in t.acked ==> q in s.acked || q > s.dev.ack
  {
    hide Step, Inv;
    if acts != [] {
      var u := Run(s, acts[..|acts| - 1]);
      LaterRunsAboveAck(s, acts[..|acts| - 1]);
      InvOverRuns(s, acts[..|acts| - 1]);
      InvParts(u);
      hide Shape, Cursor;
      AckGrows(u, acts[|acts| - 1]);
      RanAboveAck(u, acts[|acts| - 1]);
    }
  }

  lemma InvParts(s: Sys)
    requires Inv(s)
    ensures Shape(s) && Cursor(s)
  {
    hide Shape, Fresh, Handshake, Counters, Ahead, QueueOk, Cursor, Lowest, History, NoneSkipped, RunsInOrder;
  }

  /** A command that is not acked when the device's ack has reached its seq is never acked, and never run from
      then on. */
  lemma LateCommandNeverRuns(s: Sys, t: nat, acts: seq<Action>)
    requires Inv(s) && t <= s.dev.ack && t !in s.acked
    ensures t !in Run(s, acts).acked
    ensures |s.ran| <= |Run(s, acts).ran| && t !in Run(s, acts).ran[|s.ran|..]
    ensures t !in s.ran ==> t !in Run(s, acts).ran
  {
    hide Inv;
    LaterRunsAboveAck(s, acts);
    var u := Run(s, acts);
    assert u.ran == s.ran + u.ran[|s.ran|..];
  }

  // ---------------------------------------------------------------- which commands can still be delivered

  /** A seq beyond 32 bits is never closed by an ack, so the lowest such row that targets the device is served again
      and again, and keeps higher rows from being served. */
  ghost predicate Blocked(s: Sys, t: nat) {
    exists u: nat :: u < t && Due(s.srv.rows, s.sn, U32_MAX, u)
  }

  /** The device holds the command, or awaits an answer that carries it. */
  ghost predicate InHand(s: Sys, t: nat) {
    match s.pc
    case AwaitPoll(x) => x < |s.ex| && s.ex[x].status == Served(t)
    case Script(q) => q == t
    case Ran(q, _) => q == t
    case _ => false
  }

  /** A due command above the ack that is not blocked gets its turn: the lower due ones are run and acked first,
      then it is. */
  lemma {:induction false} DueCommandAcked(s: Sys, t: nat) returns (acts: seq<Action>)
    requires Inv(s) && Due(s.srv.rows, s.sn, s.dev.ack, t) && !Blocked(s, t)
    ensures t in Run(s, acts).acked
    decreases t - s.dev.ack
  {
    InvParts(s);
    hide Inv, Shape;
    var reply := PickReply(s.srv.rows, s.sn, s.dev.ack);
    var q := reply.value;
    acts := NextCommandAcked(s, q);
    var u := Run(s, acts);
    if q < t {
      LowerIsNarrow(s, t, q);
      InvOverRuns(s, acts);
      hide Run;
      var rest := DueCommandAcked(u, t);
      RunConcat(s, acts, rest);
      acts := acts + rest;
    }
  }

  lemma WideBlocks(s: Sys, t: nat, q: nat)
    requires U32_MAX < q < t && Due(s.srv.rows, s.sn, s.dev.ack, q)
    ensures Blocked(s, t)
  {
    assert Due(s.srv.rows, s.sn, U32_MAX, q);
  }

  lemma LowerIsNarrow(s: Sys, t: nat, q: nat)
    requires !Blocked(s, t) && q < t && Due(s.srv.rows, s.sn, s.dev.ack, q)
    ensures q <= U32_MAX
  {
    hide Blocked;
    if q > U32_MAX {
      WideBlocks(s, t, q);
    }
  }

  /** A command in the device's hands is acked if nothing goes wrong. */
  lemma HeldCommandAcked(s: Sys, t: nat) returns (acts: seq<Action>)
    requires InHand(s, t)
    ensures t in Run(s, acts).acked
  {
    hide Step;
    if s.pc.Ran? {
      acts := [PersistAck];
      RunOfOne(s, PersistAck);
      AckStored(s, t, s.pc.intent);
    } else if s.pc.Script? {
      acts := [ScriptDone(NoIntent), PersistAck];
      RunOfTwo(s, ScriptDone(NoIntent), PersistAck);
      ScriptEnds(s, t);
      AckStored(Step(s, ScriptDone(NoIntent)), t, NoIntent);
    } else {
      acts := [GotScript, ScriptDone(NoIntent)] + [PersistAck];
      RunOfTwo(s, GotScript, ScriptDone(NoIntent));
      RunSnoc(s, [GotScript, ScriptDone(NoIntent)], PersistAck);
      ScriptRunsOnce(s, t, NoIntent);
      AckStored(Run(s, [GotScript, ScriptDone(NoIntent)]), t, NoIntent);
    }
  }

  lemma ScriptEnds(s: Sys, t: nat)
    requires s.pc == Script(t)
    ensures Step(s, ScriptDone(NoIntent)) == s.(pc := Ran(t, NoIntent))
  {
    hide Step, Enabled, Effect;
    DeviceStep(s, ScriptDone(NoIntent));
  }

  /** Rows are never taken away. */
  lemma DueStays(s: Sys, a: Action)
    ensures var t := Step(s, a);
      t.sn == s.sn && forall applied: nat, u: nat :: Due(s.srv.rows, s.sn, applied, u) ==> Due(t.srv.rows, t.sn, applied, u)
  {
    hide Step, Due;
    if ByDevice(a) {
      DeviceFrame(s, a);
    } else if ByPolls(a) {
      PollFrame(s, a);
      if Admits(s, a) {
        hide MarkApplied;
        MarkKeepsDue(s.srv.rows, s.sn, Admit(s, s.ex[a.x].req).srv.cursor, s.sn);
      }
    } else if ByRekeys(a) {
      RekeyFrame(s, a);
    } else {
      hide MarkApplied, Enqueue, Enabled, Effect;
      OperatorStep(s, a);
      match a
      case Submit(q, serial, key) =>
        if q !in s.srv.rows {
          EnqueueKeepsDue(s.srv.rows, q, serial, key, s.sn);
        }
      case OtherAck(serial, upto) => MarkKeepsDue(s.srv.rows, serial, upto, s.sn);
    }
  }

  lemma BlockedStays(s: Sys, a: Action, t: nat)
    requires Blocked(s, t)
    ensures Blocked(Step(s, a), t)
  {
    hide Step, Due;
    DueStays(s, a);
    var u: nat :| u < t && Due(s.srv.rows, s.sn, U32_MAX, u);
    assert Due(Step(s, a).srv.rows, Step(s, a).sn, U32_MAX, u);
  }

  lemma ServedIsNext(s: Sys, x: nat, reply: Option<nat>, t: nat)
    requires Shape(s) && Cursor(s) && !InHand(s, t) && InHand(Step(s, ServePoll(x, reply)), t)
    ensures IsNext(s.srv.rows, s.sn, s.dev.ack, t)
  {
    hide Step, Check, MarkApplied, Due;
    ServePollIs(s, x, reply);
    if Admits(s, ServePoll(x, reply)) {
      MarkKeepsDue(s.srv.rows, s.sn, Admit(s, s.ex[x].req).srv.cursor, s.sn);
    }
  }

  /** The answer to the device's poll that a poll step may put into its hands is the next command after its ack. */
  lemma AnswerIsNext(s: Sys, a: Action, t: nat)
    requires Shape(s) && Cursor(s) && ByPolls(a) && !InHand(s, t) && InHand(Step(s, a), t)
    ensures IsNext(s.srv.rows, s.sn, s.dev.ack, t)
  {
    match a
    case ServePoll(x, reply) => ServedIsNext(s, x, reply, t);
    case ForgePoll(ack, c, secret) =>
      hide Step;
      ForgeryRefused(s, ack, c, secret);
    case ReplayPoll(x) =>
      hide Step, Enabled, Effect, Check, MarkApplied, IsNext;
      PollStep(s, a);
    case HoldServe(x, q) =>
      hide Step, Enabled, Effect, IsNext;
      PollStep(s, a);
    case _ =>
      hide Step, Enabled, Effect, Check, Admit, IsNext;
      PollStep(s, a);
  }

  /** A blocked command that is not in hand does not come to hand, and is not acked. */
  lemma BlockedNotTaken(s: Sys, a: Action, t: nat)
    requires Shape(s) && Cursor(s) && Blocked(s, t) && !InHand(s, t)
    ensures !InHand(Step(s, a), t) && (t in Step(s, a).acked ==> t in s.acked)
  {
    hide Step, Shape;
    if ByDevice(a) {
      hide Enabled, Effect, Cursor, Blocked;
      DeviceStep(s, a);
    } else if ByPolls(a) {
      PollFrame(s, a);
      var u: nat :| u < t && Due(s.srv.rows, s.sn, U32_MAX, u);
      assert Due(s.srv.rows, s.sn, s.dev.ack, u);
      if InHand(Step(s, a), t) {
        hide InHand;
        AnswerIsNext(s, a, t);
      }
    } else if ByRekeys(a) {
      RekeyFrame(s, a);
    } else {
      BackendFrame(s, a);
      OperatorKeepsExchanges(s, a);
    }
  }

  lemma OperatorKeepsExchanges(s: Sys, a: Action)
    requires ByOperator(a)
    ensures Step(s, a).ex == s.ex
  {
    hide Step, Enabled, Effect, MarkApplied, Enqueue;
    OperatorStep(s, a);
  }

  lemma {:induction false} BlockedNeverAcked(s: Sys, t: nat, acts: seq<Action>)
    requires Inv(s) && Blocked(s, t) && !InHand(s, t) && t !in s.acked
    ensures var u := Run(s, acts); Blocked(u, t) && !InHand(u, t) && t !in u.acked
  {
    hide Step, Inv, Blocked, InHand;
    if acts != [] {
      var n := |acts| - 1;
      var u := Run(s, acts[..n]);
      BlockedNeverAcked(s, t, acts[..n]);
      InvOverRuns(s, acts[..n]);
      InvParts(u);
      hide Shape, Cursor;
      BlockedStays(u, acts[n], t);
      BlockedNotTaken(u, acts[n], t);
    }
  }

  /** Exactly which commands can still be delivered: in every reachable state, a command of this device that is not
      yet acked is acked in some continuation if and only if its seq is above the device's ack and it is in the
      device's hands or not blocked. */
  lemma DeliverableIff(sn: string, noise: Dev, acts: seq<Action>, t: nat)
    requires sn != FLEET
    requires Due(Run(Start(sn, noise), acts).srv.rows, sn, 0, t) && t !in Run(Start(sn, noise), acts).acked
    ensures var s := Run(Start(sn, noise), acts);
      (exists more :: t in Run(s, more).acked) <==> t > s.dev.ack && (InHand(s, t) || !Blocked(s, t))
  {
    InvAtStart(sn, noise);
    InvOverRuns(Start(sn, noise), acts);
    SerialOverRun(Start(sn, noise), acts);
    hide Inv, Run, Start, InHand, Blocked;
    var s := Run(Start(sn, noise), acts);
    if t <= s.dev.ack {
      forall more
        ensures t !in Run(s, more).acked
      {
        LateCommandNeverRuns(s, t, more);
      }
    } else if InHand(s, t) {
      var more := HeldCommandAcked(s, t);
      assert t in Run(s, more).acked;
    } else if !Blocked(s, t) {
      var more := DueCommandAcked(s, t);
      assert t in Run(s, more).acked;
    } else {
      forall more
        ensures t !in Run(s, more).acked
      {
        BlockedNeverAcked(s, t, more);
      }
    }
  }

  /** For seqs that fit 32 bits, nothing else in the queue matters. */
  lemma DeliverableIffAboveAck(sn: string, noise: Dev, acts: seq<Action>, t: nat)
    requires sn != FLEET && t <= U32_MAX
    requires Due(Run(Start(sn, noise), acts).srv.rows, sn, 0, t) && t !in Run(Start(sn, noise), acts).acked
    ensures (exists more :: t in Run(Run(Start(sn, noise), acts), more).acked) <==> t > Run(Start(sn, noise), acts).dev.ack
  {
    hide Run, Start;
    DeliverableIff(sn, noise, acts, t);
  }

  lemma Submitted(s: Sys, q: nat)
    requires q > 0 && q !in s.srv.rows
    ensures var t := Step(s, Submit(q, s.sn, None));
      && t.srv == s.srv.(rows := s.srv.rows[q := Row(s.sn, None, false)]) && t.dev == s.dev && t.sn == s.sn
      && t.ran == s.ran && t.acked == s.acked && (s.narrow && q <= U32_MAX ==> t.narrow)
  {
    hide Check;
  }

  /** Skipped commands exist: seq 2 commits first, is run and acked, then seq 1 commits. */
  lemma LateCommitIsSkipped(sn: string, noise: Dev) returns (acts: seq<Action>)
    requires sn != FLEET
    ensures var s := Run(Start(sn, noise), acts);
      s.narrow && Due(s.srv.rows, sn, 0, 1) && s.acked == [2] && s.dev.ack == 2 && 1 !in s.acked
  {
    var s := Start(sn, noise);
    Submitted(s, 2);
    hide Step;
    RunOfOne(s, Submit(2, sn, None));
    var t := Run(s, [Submit(2, sn, None)]);
    assert IsNext(t.srv.rows, t.sn, t.dev.ack, 2);
    var served := NextCommandAcked(t, 2);
    hide Run;
    acts := [Submit(2, sn, None)] + served;
    RunConcat(s, [Submit(2, sn, None)], served);
    Submitted(Run(s, acts), 1);
    RunSnoc(s, acts, Submit(1, sn, None));
    acts := acts + [Submit(1, sn, None)];
  }

  /** A seq above 2^32-1 is run again: after the first run and ack it is still due, and is served a second time. */
  lemma WideCommandRunsTwice(sn: string, noise: Dev) returns (acts: seq<Action>)
    requires sn != FLEET
    ensures var s, q := Run(Start(sn, noise), acts), U32_MAX + 1;
      s.ran == [q, q] && s.acked == [q, q] && s.dev.ack == U32_MAX && Due(s.srv.rows, sn, s.dev.ack, q)
  {
    var s, q := Start(sn, noise), U32_MAX + 1;
    Submitted(s, q);
    hide Step;
    RunOfOne(s, Submit(q, sn, None));
    var t := Run(s, [Submit(q, sn, None)]);
    assert IsNext(t.srv.rows, t.sn, t.dev.ack, q);
    var first := NextCommandAcked(t, q);
    hide Run;
    RunConcat(s, [Submit(q, sn, None)], first);
    acts := [Submit(q, sn, None)] + first;
    var u := Run(s, acts);
    CursorBehindAck(sn, noise, acts);
    assert IsNext(u.srv.rows, u.sn, u.dev.ack, q);
    var second := NextCommandAcked(u, q);
    RunConcat(s, acts, second);
    acts := acts + second;
  }

  // ---------------------------------------------------------------- whose commands

  /** The serve query, spelled out: the lowest row past the cursor that is for this serial or for all. */
  lemma ServedIsLowest(rows: Queue, sn: string, applied: nat, q: nat)
    ensures IsNext(rows, sn, applied, q) <==>
      && q in rows && q > applied && (rows[q].serial == sn || rows[q].serial == "*")
      && forall t: nat :: t in rows && t > applied && (rows[t].serial == sn || rows[t].serial == "*") ==> q <= t
    ensures NothingDue(rows, sn, applied) <==>
      forall t: nat :: t in rows && t > applied ==> rows[t].serial != sn && rows[t].serial != "*"
  {
    if q in rows && q > applied && (rows[q].serial == sn || rows[q].serial == "*") {
      assert Due(rows, sn, applied, q);
    }
    forall t: nat | t in rows && t > applied
      ensures Due(rows, sn, applied, t) <==> rows[t].serial == sn || rows[t].serial == "*"
    {
    }
  }

  /** Everything run or acked is a row that is due to the device. */
  ghost predicate OnlyDue(s: Sys) {
    forall q: nat :: q in s.ran || q in s.acked ==> Due(s.srv.rows, s.sn, 0, q)
  }

  /** What a device step adds to the histories is the command in hand. */
  lemma AddsInHand(s: Sys, a: Action)
    requires Shape(s) && Cursor(s)
    ensures var t := Step(s, a);
      forall q: nat :: q in t.ran || q in t.acked ==> q in s.ran || q in s.acked || Due(s.srv.rows, s.sn, s.dev.ack, q)
  {
    if ByDevice(a) {
      hide Step, Enabled, Effect, Due;
      DeviceStep(s, a);
    } else {
      hide Step;
      BackendFrame(s, a);
    }
  }

  lemma {:induction false} OnlyDueOverRuns(s: Sys, acts: seq<Action>)
    requires Inv(s) && OnlyDue(s)
    ensures OnlyDue(Run(s, acts))
  {
    hide Step, Inv, Due;
    if acts != [] {
      var n := |acts| - 1;
      var u := Run(s, acts[..n]);
      OnlyDueOverRuns(s, acts[..n]);
      InvOverRuns(s, acts[..n]);
      InvParts(u);
      hide Shape, Cursor;
      AddsInHand(u, acts[n]);
      DueStays(u, acts[n]);
      DuePast(u.srv.rows, u.sn, u.dev.ack);
    }
  }

  lemma DuePast(rows: Queue, sn: string, applied: nat)
    ensures forall q: nat :: Due(rows, sn, applied, q) ==> Due(rows, sn, 0, q)
  {
  }

  /** Over every run, whatever a device runs or acks is a queued command for that device itself or for the whole
      fleet, never another device's; and if its commands are visible in seq order and fit 32 bits, it has acked exactly
      those of them up to its ack. */
  lemma OnlyOwnCommands(sn: string, noise: Dev, acts: seq<Action>)
    requires sn != FLEET
    ensures var s := Run(Start(sn, noise), acts);
      && (forall q: nat :: q in s.ran || q in s.acked ==>
            q in s.srv.rows && q > 0 && (s.srv.rows[q].serial == sn || s.srv.rows[q].serial == "*"))
      && (s.ordered && s.narrow ==>
            forall t: nat :: t in s.acked <==>
              t in s.srv.rows && 0 < t <= s.dev.ack && (s.srv.rows[t].serial == sn || s.srv.rows[t].serial == "*"))
  {
    InvAtStart(sn, noise);
    OnlyDueOverRuns(Start(sn, noise), acts);
    SerialOverRun(Start(sn, noise), acts);
    CommandsRunInOrderNoneSkipped(sn, noise, acts);
    hide Run, Start, Collapse, Rising, IsNext;
  }

  /** A submission adds its row, unless its key is that of a row of the same serial not yet applied. It keeps the
      orderly commits of this device's commands exactly if, when it adds one, that is past all of them; and their
      32-bit seqs exactly if it fits too. */
  lemma SubmissionAdds(s: Sys, q: nat, serial: string, key: Option<string>)
    requires q > 0 && q !in s.srv.rows
    ensures var t, rows := Step(s, Submit(q, serial, key)), s.srv.rows;
      var twin := key.Some? && key.value != "" &&
        exists u :: u in rows && rows[u].serial == serial && rows[u].key == key && !rows[u].applied;
      var mine := !twin && (serial == s.sn || serial == "*");
      && t.srv.rows == (if twin then rows else rows[q := Row(serial, if key == Some("") then None else key, false)])
      && (t.ordered <==>
            && s.ordered
            && (mine ==> forall u :: u in rows && (rows[u].serial == s.sn || rows[u].serial == "*") ==> u < q))
      && (t.narrow <==> s.narrow && (mine ==> q <= 0xFFFF_FFFF))
  {
    hide Step, Enabled, Effect;
    OperatorStep(s, Submit(q, serial, key));
    var rows := s.srv.rows;
    forall u | u in rows
      ensures TargetsSerial(rows[u], s.sn) <==> rows[u].serial == s.sn || rows[u].serial == "*"
      ensures key.Some? ==> (Pending(rows[u], serial, key.value) <==> rows[u].serial == serial && rows[u].key == key && !rows[u].applied)
    {
    }
  }

  /** No other step disturbs that order, and only a poll at the last 32-bit counter wraps it. */
  lemma FlagsOtherwise(s: Sys, a: Action)
    ensures !a.Submit? ==> Step(s, a).ordered == s.ordered && Step(s, a).narrow == s.narrow
    ensures Step(s, a).wrapped <==>
      s.wrapped || ((a.StartPoll? || a.PollAborted?) && s.pc.Idle? && s.dev.magic && s.dev.counter == 0xFFFF_FFFF)
  {
    hide Step, Enabled, Effect, Check, Admits, Installs, Enqueue, MarkApplied, Adds;
    if ByDevice(a) {
      DeviceStep(s, a);
    } else if ByPolls(a) {
      PollFrame(s, a);
    } else if ByRekeys(a) {
      RekeyFrame(s, a);
    } else {
      OperatorStep(s, a);
    }
  }

  /** Once its ack is stored, a reboot, refresh or sleep intent is actioned by the next step, unless power is lost
      first. */
  lemma AckedIntentActioned(s: Sys, cold: bool)
    requires s.pc.Acked?
    ensures Step(s, ActOn(cold)).actioned == if s.pc.intent.NoIntent? then s.actioned else s.actioned + [s.pc.q]
    ensures Step(s, ActOn(cold)).pc.Idle? && Step(s, ActOn(cold)).dev.ack == s.dev.ack
  {
    hide Step, Enabled, Effect;
    DeviceStep(s, ActOn(cold));
  }
}
