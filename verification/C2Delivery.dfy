/** What the device has run, acknowledged and actioned, over every run of the channel. */
module C2Delivery {
  import opened Machine
  import opened C2
  import opened C2Invariants

  lemma MarkKeepsDue(rows: Queue, serial: string, upto: nat, sn: string)
    ensures MarkApplied(rows, serial, upto).Keys == rows.Keys
    ensures forall applied: nat, q: nat :: Due(MarkApplied(rows, serial, upto), sn, applied, q) <==> Due(rows, sn, applied, q)
  {
  }

  lemma EnqueueKeepsDue(rows: Queue, q: nat, serial: string, key: Option<string>, sn: string)
    requires q !in rows
    ensures forall applied: nat, t: nat :: Due(rows, sn, applied, t) ==> Due(Enqueue(rows, q, serial, key), sn, applied, t)
    ensures forall applied: nat, t: nat :: Due(Enqueue(rows, q, serial, key), sn, applied, t) ==> t == q || Due(rows, sn, applied, t)
    ensures !TargetsSn(serial, sn) ==> forall applied: nat :: !Due(Enqueue(rows, q, serial, key), sn, applied, q)
    ensures rows.Keys <= Enqueue(rows, q, serial, key).Keys <= rows.Keys + {q}
  {
  }

  // ---------------------------------------------------------------- cursor, ack, and the command in hand

  /** The cursor never passes the device's ack, and a command in the device's hands is past it. */
  ghost predicate Cursor(s: Sys) {
    && s.dev.ack <= U32_MAX && s.srv.cursor <= s.dev.ack
    && (forall y :: 0 <= y < |s.ex| && s.ex[y].req.Poll? ==> s.ex[y].req.ack <= s.dev.ack)
    && match s.pc
       case AwaitPoll(x) => x < |s.ex| ==> Reply(s, s.ex[x].status)
       case Script(q) => Due(s.srv.rows, s.sn, s.dev.ack, q)
       case Ran(q, _) => Due(s.srv.rows, s.sn, s.dev.ack, q)
       case _ => true
  }

  ghost predicate Reply(s: Sys, st: Status) {
    && (st.Holding? ==> st.applied == s.dev.ack)
    && (st.Served? ==> Due(s.srv.rows, s.sn, s.dev.ack, st.q))
  }

  lemma CursorKeptByDevice(s: Sys, a: Action)
    requires Shape(s) && Cursor(s) && ByDevice(a)
    ensures Cursor(Step(s, a))
  {
    hide Step, Enabled, Effect;
    DeviceStep(s, a);
  }

  lemma CursorKeptByServe(s: Sys, x: nat, reply: Option<nat>)
    requires Shape(s) && Cursor(s)
    ensures Cursor(Step(s, ServePoll(x, reply)))
  {
    hide Step, Enabled, Effect, Check, NothingDue, MarkApplied;
    PollStep(s, ServePoll(x, reply));
    if Admits(s, ServePoll(x, reply)) {
      AdmittedPoll(s.srv, s.ex[x].req);
      MarkKeepsDue(s.srv.rows, s.sn, Admit(s, s.ex[x].req).srv.cursor, s.sn);
    }
  }

  lemma CursorKeptByReplay(s: Sys, x: nat)
    requires Shape(s) && Cursor(s)
    ensures Cursor(Step(s, ReplayPoll(x)))
  {
    hide Step, Enabled, Effect, Check, NothingDue, MarkApplied;
    PollStep(s, ReplayPoll(x));
    if Admits(s, ReplayPoll(x)) {
      AdmittedPoll(s.srv, s.ex[x].req);
      MarkKeepsDue(s.srv.rows, s.sn, Admit(s, s.ex[x].req).srv.cursor, s.sn);
    }
  }

  lemma CursorKeptByHold(s: Sys, x: nat, q: nat)
    requires Shape(s) && Cursor(s)
    ensures Cursor(Step(s, HoldServe(x, q)))
  {
    hide Step, Enabled, Effect, NothingDue, MarkApplied, Admit;
    PollStep(s, HoldServe(x, q));
  }

  lemma CursorKeptByPolls(s: Sys, a: Action)
    requires Shape(s) && Cursor(s) && ByPolls(a)
    ensures Cursor(Step(s, a))
  {
    match a
    case ServePoll(x, reply) => CursorKeptByServe(s, x, reply);
    case ReplayPoll(x) => CursorKeptByReplay(s, x);
    case HoldServe(x, q) => CursorKeptByHold(s, x, q);
    case ForgePoll(ack, c, secret) =>
      hide Step;
      ForgeryRefused(s, ack, c, secret);
    case _ =>
      hide Step, Enabled, Effect, Check, NothingDue, MarkApplied, Admit;
      PollStep(s, a);
  }

  lemma CursorKeptByRekeys(s: Sys, a: Action)
    requires Shape(s) && Cursor(s) && ByRekeys(a)
    ensures Cursor(Step(s, a))
  {
    hide Step;
    RekeyFrame(s, a);
  }

  lemma CursorKeptByOperator(s: Sys, a: Action)
    requires Shape(s) && Cursor(s) && ByOperator(a)
    ensures Cursor(Step(s, a))
  {
    hide Step, Enabled, Effect, Check, Enqueue, NothingDue, MarkApplied;
    OperatorStep(s, a);
    if Enabled(s, a) {
      match a
      case Submit(q, serial, key) => EnqueueKeepsDue(s.srv.rows, q, serial, key, s.sn);
      case OtherAck(serial, upto) => MarkKeepsDue(s.srv.rows, serial, upto, s.sn);
    }
  }

  lemma CursorKept(s: Sys, a: Action)
    requires Shape(s) && Cursor(s)
    ensures Cursor(Step(s, a))
  {
    hide Effect, Enabled, Step, Cursor;
    if ByDevice(a) {
      CursorKeptByDevice(s, a);
    } else if ByPolls(a) {
      CursorKeptByPolls(s, a);
    } else if ByRekeys(a) {
      CursorKeptByRekeys(s, a);
    } else {
      CursorKeptByOperator(s, a);
    }
  }

  // ---------------------------------------------------------------- no command is skipped

  /** With this device's commands visible in seq order, the command in hand is the lowest one past the ack. */
  ghost predicate Lowest(s: Sys) {
    s.ordered ==>
      match s.pc
      case AwaitPoll(x) => x < |s.ex| && s.ex[x].status.Served? ==> IsNext(s.srv.rows, s.sn, s.dev.ack, s.ex[x].status.q)
      case Script(q) => IsNext(s.srv.rows, s.sn, s.dev.ack, q)
      case Ran(q, _) => IsNext(s.srv.rows, s.sn, s.dev.ack, q)
      case _ => true
  }

  lemma LowestKeptByDevice(s: Sys, a: Action)
    requires Shape(s) && Cursor(s) && Lowest(s) && ByDevice(a)
    ensures Lowest(Step(s, a))
  {
    hide Step, Enabled, Effect;
    DeviceStep(s, a);
  }

  lemma LowestKeptByServe(s: Sys, x: nat, reply: Option<nat>)
    requires Shape(s) && Cursor(s) && Lowest(s)
    ensures Lowest(Step(s, ServePoll(x, reply)))
  {
    hide Step, Enabled, Effect, Check, NothingDue, MarkApplied;
    PollStep(s, ServePoll(x, reply));
    if Admits(s, ServePoll(x, reply)) {
      AdmittedPoll(s.srv, s.ex[x].req);
      MarkKeepsDue(s.srv.rows, s.sn, Admit(s, s.ex[x].req).srv.cursor, s.sn);
    }
  }

  lemma LowestKeptByReplay(s: Sys, x: nat)
    requires Shape(s) && Cursor(s) && Lowest(s)
    ensures Lowest(Step(s, ReplayPoll(x)))
  {
    hide Step, Enabled, Effect, Check, NothingDue, MarkApplied;
    PollStep(s, ReplayPoll(x));
    if Admits(s, ReplayPoll(x)) {
      AdmittedPoll(s.srv, s.ex[x].req);
      MarkKeepsDue(s.srv.rows, s.sn, Admit(s, s.ex[x].req).srv.cursor, s.sn);
    }
  }

  lemma LowestKeptByPolls(s: Sys, a: Action)
    requires Shape(s) && Cursor(s) && Lowest(s) && ByPolls(a)
    ensures Lowest(Step(s, a))
  {
    match a
    case ServePoll(x, reply) => LowestKeptByServe(s, x, reply);
    case ReplayPoll(x) => LowestKeptByReplay(s, x);
    case ForgePoll(ack, c, secret) =>
      hide Step;
      ForgeryRefused(s, ack, c, secret);
    case _ =>
      hide Step, Enabled, Effect, Check, NothingDue, MarkApplied, Admit;
      PollStep(s, a);
  }

  lemma LowestKeptByRekeys(s: Sys, a: Action)
    requires Shape(s) && Cursor(s) && Lowest(s) && ByRekeys(a)
    ensures Lowest(Step(s, a))
  {
    hide Step;
    RekeyFrame(s, a);
  }

  lemma LowestKeptByOperator(s: Sys, a: Action)
    requires Shape(s) && Cursor(s) && Lowest(s) && ByOperator(a)
    ensures Lowest(Step(s, a))
  {
    hide Step, Enabled, Effect, Check, Enqueue, NothingDue, MarkApplied;
    OperatorStep(s, a);
    if Enabled(s, a) {
      match a
      case Submit(q, serial, key) => EnqueueKeepsDue(s.srv.rows, q, serial, key, s.sn);
      case OtherAck(serial, upto) => MarkKeepsDue(s.srv.rows, serial, upto, s.sn);
    }
  }

  lemma LowestKept(s: Sys, a: Action)
    requires Shape(s) && Cursor(s) && Lowest(s)
    ensures Lowest(Step(s, a))
  {
    hide Effect, Enabled, Step, Lowest;
    if ByDevice(a) {
      LowestKeptByDevice(s, a);
    } else if ByPolls(a) {
      LowestKeptByPolls(s, a);
    } else if ByRekeys(a) {
      LowestKeptByRekeys(s, a);
    } else {
      LowestKeptByOperator(s, a);
    }
  }

  // ---------------------------------------------------------------- the ack and intent histories

  ghost predicate Rising(q: seq<nat>) {
    forall i, j :: 0 <= i < j < |q| ==> q[i] < q[j]
  }

  /** The ack history rises and ends in the stored ack; an intent is actioned only after its ack. */
  ghost predicate History(s: Sys) {
    s.narrow ==>
      && Rising(s.acked) && Rising(s.actioned)
      && (s.acked == [] ==> s.dev.ack == 0) && (s.acked != [] ==> s.acked[|s.acked| - 1] == s.dev.ack)
      && (forall i :: 0 <= i < |s.acked| ==> Due(s.srv.rows, s.sn, 0, s.acked[i]))
      && (forall i :: 0 <= i < |s.actioned| ==> s.actioned[i] in s.acked)
      && (s.pc.Acked? ==> s.pc.q in s.acked && s.pc.q == s.dev.ack && forall i :: 0 <= i < |s.actioned| ==> s.actioned[i] < s.pc.q)
  }

  /** But for storing an ack, the device leaves the acks alone, and actions only the intent of the command acked. */
  lemma DeviceHistory(s: Sys, a: Action)
    requires ByDevice(a) && !a.PersistAck?
    ensures var t := Step(s, a);
      && t.acked == s.acked && t.dev.ack == s.dev.ack && t.srv.rows == s.srv.rows && t.sn == s.sn && t.narrow == s.narrow
      && (t.actioned == s.actioned || (s.pc.Acked? && t.pc.Idle? && t.actioned == s.actioned + [s.pc.q]))
      && (t.pc.Acked? ==> t.pc == s.pc && t.actioned == s.actioned)
  {
    hide Step, Enabled, Effect;
    DeviceStep(s, a);
  }

  lemma HistoryKeptByDevice(s: Sys, a: Action)
    requires Shape(s) && Cursor(s) && QueueOk(s.srv.rows, s.sn, s.srv.cursor, s.narrow) && History(s) && ByDevice(a)
    ensures History(Step(s, a))
  {
    if a.PersistAck? {
      HistoryKeptByAck(s);
    } else {
      hide Step, Cursor, Shape, QueueOk, Due;
      DeviceHistory(s, a);
    }
  }

  lemma HistoryKeptByAck(s: Sys)
    requires Cursor(s) && QueueOk(s.srv.rows, s.sn, s.srv.cursor, s.narrow) && History(s)
    ensures History(Step(s, PersistAck))
  {
    hide Step, Enabled, Effect, IsNext;
    DeviceStep(s, PersistAck);
    if Enabled(s, PersistAck) && s.narrow {
      AppendRising(s, s.pc.q);
    }
  }

  lemma HistoryKeptByPolls(s: Sys, a: Action)
    requires Shape(s) && Cursor(s) && QueueOk(s.srv.rows, s.sn, s.srv.cursor, s.narrow) && History(s) && ByPolls(a)
    ensures History(Step(s, a))
  {
    hide Step, Check, Enqueue, IsNext, NothingDue, MarkApplied, Shape, Cursor, QueueOk;
    PollFrame(s, a);
    if Admits(s, a) {
      AdmittedPoll(s.srv, s.ex[a.x].req);
      var r := Admit(s, s.ex[a.x].req);
      MarkKeepsDue(s.srv.rows, s.sn, r.srv.cursor, s.sn);
    }
  }

  lemma HistoryKeptByRekeys(s: Sys, a: Action)
    requires History(s) && ByRekeys(a)
    ensures History(Step(s, a))
  {
    hide Step, Due;
    RekeyFrame(s, a);
  }

  lemma HistoryKeptByOperator(s: Sys, a: Action)
    requires Shape(s) && Cursor(s) && QueueOk(s.srv.rows, s.sn, s.srv.cursor, s.narrow) && History(s) && ByOperator(a)
    ensures History(Step(s, a))
  {
    hide Step, Enabled, Effect, Check, Enqueue, IsNext, NothingDue, MarkApplied;
    OperatorStep(s, a);
    if Enabled(s, a) {
      match a
      case Submit(q, serial, key) => EnqueueKeepsDue(s.srv.rows, q, serial, key, s.sn);
      case OtherAck(serial, upto) => MarkKeepsDue(s.srv.rows, serial, upto, s.sn);
    }
  }

  lemma HistoryKept(s: Sys, a: Action)
    requires Shape(s) && Cursor(s) && QueueOk(s.srv.rows, s.sn, s.srv.cursor, s.narrow) && History(s)
    ensures History(Step(s, a))
  {
    hide Effect, Enabled, Step, History;
    if ByDevice(a) {
      HistoryKeptByDevice(s, a);
    } else if ByPolls(a) {
      HistoryKeptByPolls(s, a);
    } else if ByRekeys(a) {
      HistoryKeptByRekeys(s, a);
    } else {
      HistoryKeptByOperator(s, a);
    }
  }

  lemma AppendRising(s: Sys, q: nat)
    requires s.narrow && History(s) && q > s.dev.ack
    ensures Rising(s.acked + [q]) && forall i :: 0 <= i < |s.acked| ==> s.acked[i] < q
  {
    assert forall i :: 0 <= i < |s.acked| - 1 ==> s.acked[i] < s.acked[|s.acked| - 1];
  }

  /** Every command of this device up to its ack has been acknowledged, that is, run. */
  ghost predicate NoneSkipped(s: Sys) {
    s.narrow && s.ordered ==> forall t: nat :: Due(s.srv.rows, s.sn, 0, t) && t <= s.dev.ack ==> t in s.acked
  }

  lemma AckedAll(s: Sys)
    requires Shape(s) && Cursor(s) && QueueOk(s.srv.rows, s.sn, s.srv.cursor, s.narrow) && Lowest(s) && NoneSkipped(s)
    requires s.pc.Ran? && s.narrow && s.ordered
    ensures forall t: nat :: Due(s.srv.rows, s.sn, 0, t) && t <= s.pc.q ==> t in s.acked + [s.pc.q]
  {
    forall t: nat | Due(s.srv.rows, s.sn, 0, t) && t <= s.pc.q
      ensures t in s.acked + [s.pc.q]
    {
      if t > s.dev.ack {
        assert Due(s.srv.rows, s.sn, s.dev.ack, t);
      }
    }
  }

  lemma NoneSkippedKeptByDevice(s: Sys, a: Action)
    requires Shape(s) && Cursor(s) && QueueOk(s.srv.rows, s.sn, s.srv.cursor, s.narrow) && Lowest(s) && History(s) && NoneSkipped(s) && ByDevice(a)
    ensures NoneSkipped(Step(s, a))
  {
    hide Step, Enabled, Effect, IsNext;
    DeviceStep(s, a);
    if a.PersistAck? && Enabled(s, a) && s.narrow && s.ordered {
      AckedAll(s);
    }
  }

  lemma NoneSkippedKeptByPolls(s: Sys, a: Action)
    requires Shape(s) && Cursor(s) && QueueOk(s.srv.rows, s.sn, s.srv.cursor, s.narrow) && Lowest(s) && History(s) && NoneSkipped(s) && ByPolls(a)
    ensures NoneSkipped(Step(s, a))
  {
    hide Step, Check, Enqueue, IsNext, NothingDue, MarkApplied, Shape, Cursor, QueueOk;
    PollFrame(s, a);
    if Admits(s, a) {
      AdmittedPoll(s.srv, s.ex[a.x].req);
      var r := Admit(s, s.ex[a.x].req);
      MarkKeepsDue(s.srv.rows, s.sn, r.srv.cursor, s.sn);
    }
  }

  lemma NoneSkippedKeptByRekeys(s: Sys, a: Action)
    requires Shape(s) && Cursor(s) && QueueOk(s.srv.rows, s.sn, s.srv.cursor, s.narrow) && Lowest(s) && History(s) && NoneSkipped(s) && ByRekeys(a)
    ensures NoneSkipped(Step(s, a))
  {
    hide Step;
    RekeyFrame(s, a);
  }

  lemma NoneSkippedKeptByOperator(s: Sys, a: Action)
    requires Shape(s) && Cursor(s) && QueueOk(s.srv.rows, s.sn, s.srv.cursor, s.narrow) && Lowest(s) && History(s) && NoneSkipped(s) && ByOperator(a)
    ensures NoneSkipped(Step(s, a))
  {
    hide Step, Enabled, Effect, Check, Enqueue, IsNext, NothingDue, MarkApplied;
    OperatorStep(s, a);
    if Enabled(s, a) {
      match a
      case Submit(q, serial, key) => EnqueueKeepsDue(s.srv.rows, q, serial, key, s.sn);
      case OtherAck(serial, upto) => MarkKeepsDue(s.srv.rows, serial, upto, s.sn);
    }
  }

  lemma NoneSkippedKept(s: Sys, a: Action)
    requires Shape(s) && Cursor(s) && QueueOk(s.srv.rows, s.sn, s.srv.cursor, s.narrow) && Lowest(s) && History(s) && NoneSkipped(s)
    ensures NoneSkipped(Step(s, a))
  {
    hide Effect, Enabled, Step, NoneSkipped;
    if ByDevice(a) {
      NoneSkippedKeptByDevice(s, a);
    } else if ByPolls(a) {
      NoneSkippedKeptByPolls(s, a);
    } else if ByRekeys(a) {
      NoneSkippedKeptByRekeys(s, a);
    } else {
      NoneSkippedKeptByOperator(s, a);
    }
  }

}
