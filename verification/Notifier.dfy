/** The close-and-replace wakeup of the long poll: channels, undelivered notifications, and waiters that take a
    channel before they query the queue. */
module Notifier {
  // ---------------------------------------------------------------- the notifier object

  /** Channels are numbered in the order they are made; the notifier holds the newest, and has closed the rest. */
  class C2Notifier {
    var ch: nat
    ghost var closed: set<nat>

    ghost predicate Valid()
      reads this
    {
      forall c: nat :: c in closed <==> c < ch
    }

    constructor ()
      ensures Valid() && ch == 0
    {
      ch := 0;
      closed := {};
    }

    /** The channel handed out is open now and is the one the next broadcast closes. */
    method Wait() returns (c: nat)
      requires Valid()
      ensures c == ch && c !in closed
    {
      c := ch;
    }

    /** Close the current channel and install a fresh one. */
    method Broadcast()
      requires Valid()
      modifies this
      ensures Valid() && closed == old(closed) + {old(ch)} && ch !in closed && ch == old(ch) + 1
    {
      closed := closed + {ch};
      ch := ch + 1;
    }
  }

  // ---------------------------------------------------------------- the system

  /** A waiter for rows of its serial past `applied`. */
  datatype WaiterPc = Start | Took(c: nat) | Asleep(c: nat) | Found(q: nat) | TimedOut

  datatype Waiter = Waiter(serial: string, applied: nat, pc: WaiterPc)

  /** `rows` are committed commands, `undelivered` the notifications that the LISTEN connection still has to
      hand over, one for each commit. */
  datatype Sys = Sys(rows: seq<(nat, string)>, undelivered: nat, ch: nat, waiters: seq<Waiter>)

  datatype Event =
    | Commit(q: nat, serial: string)
    | Deliver
    | Arrive(serial: string, applied: nat)
    | Take(i: nat)
    | Query(i: nat)
    | Wake(i: nat)
    | Expire(i: nat)

  predicate Closed(s: Sys, c: nat) {
    c < s.ch
  }

  predicate Wanted(w: Waiter, row: (nat, string)) {
    row.0 > w.applied && (row.1 == w.serial || row.1 == "*")
  }

  /** Row k is what `seq > applied ... ORDER BY seq LIMIT 1` returns. */
  ghost predicate LowestAt(rows: seq<(nat, string)>, w: Waiter, k: nat) {
    && k < |rows| && Wanted(w, rows[k])
    && forall j :: 0 <= j < |rows| && Wanted(w, rows[j]) ==> rows[k].0 <= rows[j].0
  }

  ghost predicate Miss(s: Sys, w: Waiter) {
    forall k :: 0 <= k < |s.rows| ==> !Wanted(w, s.rows[k])
  }

  function SetPc(s: Sys, i: nat, pc: WaiterPc): Sys
    requires i < |s.waiters|
  {
    s.(waiters := s.waiters[i := s.waiters[i].(pc := pc)])
  }

  ghost function Step(s: Sys, e: Event): Sys {
    match e
    case Commit(q, serial) => s.(rows := s.rows + [(q, serial)], undelivered := s.undelivered + 1)
    case Deliver => if s.undelivered > 0 then s.(undelivered := s.undelivered - 1, ch := s.ch + 1) else s
    case Arrive(serial, applied) => s.(waiters := s.waiters + [Waiter(serial, applied, Start)])
    case Take(i) => if i < |s.waiters| && s.waiters[i].pc.Start? then SetPc(s, i, Took(s.ch)) else s
    case Query(i) =>
      if i < |s.waiters| && s.waiters[i].pc.Took? then
        if Miss(s, s.waiters[i]) then SetPc(s, i, Asleep(s.waiters[i].pc.c))
        else SetPc(s, i, Found(Lowest(s, s.waiters[i])))
      else s
    case Wake(i) =>
      if i < |s.waiters| && s.waiters[i].pc.Asleep? && Closed(s, s.waiters[i].pc.c) then SetPc(s, i, Start) else s
    case Expire(i) => if i < |s.waiters| && s.waiters[i].pc.Asleep? then SetPc(s, i, TimedOut) else s
  }

  ghost function Lowest(s: Sys, w: Waiter): nat
    requires !Miss(s, w)
  {
    LowestExists(s.rows, w);
    var k: nat :| LowestAt(s.rows, w, k);
    s.rows[k].0
  }

  lemma LowestExists(rows: seq<(nat, string)>, w: Waiter)
    requires exists k :: 0 <= k < |rows| && Wanted(w, rows[k])
    ensures exists k: nat :: LowestAt(rows, w, k)
  {
    var k := LowestIndex(rows, w);
  }

  lemma LowestIndex(rows: seq<(nat, string)>, w: Waiter) returns (k: nat)
    requires exists k :: 0 <= k < |rows| && Wanted(w, rows[k])
    ensures LowestAt(rows, w, k)
  {
    var n := |rows| - 1;
    if exists k :: 0 <= k < n && Wanted(w, rows[k]) {
      var k0 :| 0 <= k0 < n && Wanted(w, rows[k0]);
      assert rows[..n][k0] == rows[k0];
      k := LowestIndex(rows[..n], w);
      assert forall j :: 0 <= j < n ==> rows[..n][j] == rows[j];
      if Wanted(w, rows[n]) && rows[n].0 < rows[k].0 {
        k := n;
      }
    } else {
      k := n;
    }
  }

  ghost function Run(events: seq<Event>): Sys {
    if events == [] then Sys([], 0, 0, []) else Step(Run(events[..|events| - 1]), events[|events| - 1])
  }

  /** A waiter that sleeps on a channel while a command it wants is committed has that channel closed, or a
      notification still on its way; one that is about to query holds a channel that exists. */
  ghost predicate Awake(s: Sys, w: Waiter) {
    match w.pc
    case Took(c) => c <= s.ch
    case Asleep(c) => c <= s.ch && (!Miss(s, w) ==> Closed(s, c) || s.undelivered > 0)
    case Found(q) => exists k :: 0 <= k < |s.rows| && s.rows[k].0 == q && Wanted(w, s.rows[k])
    case _ => true
  }

  ghost predicate AllAwake(s: Sys) {
    forall i :: 0 <= i < |s.waiters| ==> Awake(s, s.waiters[i])
  }

  lemma CommitWakes(s: Sys, row: (nat, string), w: Waiter)
    requires Awake(s, w)
    ensures Awake(s.(rows := s.rows + [row], undelivered := s.undelivered + 1), w)
  {
    if w.pc.Found? {
      var k :| 0 <= k < |s.rows| && s.rows[k].0 == w.pc.q && Wanted(w, s.rows[k]);
      assert (s.rows + [row])[k] == s.rows[k];
    }
  }

  lemma AwakeKept(s: Sys, e: Event)
    requires AllAwake(s)
    ensures AllAwake(Step(s, e))
  {
    hide Lowest;
    if e.Commit? {
      forall i | 0 <= i < |s.waiters|
        ensures Awake(Step(s, e), s.waiters[i])
      {
        CommitWakes(s, (e.q, e.serial), s.waiters[i]);
      }
    } else if e.Query? && e.i < |s.waiters| && s.waiters[e.i].pc.Took? && !Miss(s, s.waiters[e.i]) {
      FoundIsWanted(s, s.waiters[e.i]);
    }
  }

  lemma FoundIsWanted(s: Sys, w: Waiter)
    requires !Miss(s, w)
    ensures Awake(s, w.(pc := Found(Lowest(s, w))))
  {
    var q := Lowest(s, w);
    var k :| 0 <= k < |s.rows| && s.rows[k].0 == q && Wanted(w, s.rows[k]);
    assert Wanted(w.(pc := Found(q)), s.rows[k]);
  }

  /** No wakeup is lost, in any interleaving of commits, deliveries and waiters. */
  lemma {:induction false} NoLostWakeup(events: seq<Event>)
    ensures AllAwake(Run(events))
  {
    hide Step;
    if events != [] {
      NoLostWakeup(events[..|events| - 1]);
      AwakeKept(Run(events[..|events| - 1]), events[|events| - 1]);
    }
  }

  /** So once every notification has been delivered, a sleeping waiter with a command to fetch can wake, and it
      then finds one. */
  lemma SleeperFindsCommand(events: seq<Event>, i: nat)
    requires var s := Run(events);
      i < |s.waiters| && s.waiters[i].pc.Asleep? && s.undelivered == 0 && !Miss(s, s.waiters[i])
    ensures Step(Step(Step(Run(events), Wake(i)), Take(i)), Query(i)).waiters[i].pc.Found?
  {
    NoLostWakeup(events);
    var s := Run(events);
    var t := Step(Step(s, Wake(i)), Take(i));
    var k :| 0 <= k < |s.rows| && Wanted(s.waiters[i], s.rows[k]);
    assert t.rows == s.rows && Wanted(t.waiters[i], t.rows[k]);
  }

  /** A query finds exactly the lowest committed command past what the waiter has applied that is for its own serial
      or for all, and puts the waiter to sleep on its channel exactly if there is none. */
  lemma QueryFindsLowest(s: Sys, i: nat)
    requires i < |s.waiters| && s.waiters[i].pc.Took?
    ensures var w, pc := s.waiters[i], Step(s, Query(i)).waiters[i].pc;
      if forall k :: 0 <= k < |s.rows| && s.rows[k].0 > w.applied ==> s.rows[k].1 != w.serial && s.rows[k].1 != "*"
      then pc == Asleep(w.pc.c)
      else
        && pc.Found? && pc.q > w.applied
        && (exists k :: 0 <= k < |s.rows| && s.rows[k].0 == pc.q && (s.rows[k].1 == w.serial || s.rows[k].1 == "*"))
        && (forall k :: 0 <= k < |s.rows| && w.applied < s.rows[k].0 < pc.q ==> s.rows[k].1 != w.serial && s.rows[k].1 != "*")
  {
    var w := s.waiters[i];
    if !Miss(s, w) {
      LowestExists(s.rows, w);
      var k: nat :| LowestAt(s.rows, w, k) && s.rows[k].0 == Lowest(s, w);
    }
  }

  /** The order matters: a waiter that queried first and took its channel afterwards could sleep through a
      command that was committed and notified in between. */
  lemma QueryBeforeTakeLosesWakeup()
    ensures exists s: Sys, w: Waiter ::
      Miss(s, w) && var t := Step(Step(s, Commit(1, w.serial)), Deliver);
      !Awake(t, w.(pc := Asleep(t.ch)))
  {
    var s, w := Sys([], 0, 0, []), Waiter("d", 0, Start);
    var t := Step(Step(s, Commit(1, "d")), Deliver);
    assert t.rows[0] == (1, "d");
    assert Wanted(w.(pc := Asleep(t.ch)), t.rows[0]);
    assert Miss(s, w) && !Awake(t, w.(pc := Asleep(t.ch)));
  }
}
