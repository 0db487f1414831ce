/** Concurrent requests for packed variants: a durable cache in front of a single-flight render, as a step
    system over every interleaving of the callers. A key is the (image, fit, dither) triple. */
module SingleFlight {
  import opened Machine

  type Bytes = seq<U8>

  datatype Outcome = Ok(packed: Bytes) | Err

  /** Where a caller stands; the stages from Rechecking to Removing are the leader's. */
  datatype Pc =
    | Looking
    | Missed
    | Joined(c: nat)
    | Rechecking(c: nat)
    | Loading(c: nat)
    | Rendering(c: nat)
    | Storing(c: nat, packed: Bytes)
    | Publishing(c: nat, out: Outcome)
    | Removing(c: nat, out: Outcome)
    | Returned(out: Outcome)

  datatype Caller = Caller(key: string, pc: Pc)

  /** A call's result is none until its channel is closed. */
  datatype Call = Call(key: string, result: Option<Outcome>)

  /** A cache read either reports the row as it is, or fails and is treated as a miss. */
  datatype Look = Answers | Fails

  /** A cache write commits, does nothing, or commits without the caller learning it. */
  datatype Write = Commits | Refused | CommitsUnseen

  datatype Sys = Sys(
    callers: seq<Caller>, flights: map<string, nat>, calls: seq<Call>, store: map<string, Bytes>,
    // history
    blind: set<string>,     // keys with a re-check that failed although the row was there
    doubled: set<string>,   // keys with a committed write that found the row there
    clashed: set<string>)   // keys with such a write that reported success for other bytes than the row's

  datatype Event =
    | Arrive(key: string)
    | Get(i: nat, look: Look)
    | Do(i: nat)
    | Recheck(i: nat, look: Look)
    | Load(i: nat, ok: bool)
    | Rendered(i: nat, out: Outcome)
    | Put(i: nat, write: Write)
    | Publish(i: nat)
    | Remove(i: nat)
    | Follow(i: nat)

  /** There is a row for the key, with other bytes. */
  predicate Differs(store: map<string, Bytes>, key: string, packed: Bytes) {
    key in store && store[key] != packed
  }

  function Move(s: Sys, i: nat, pc: Pc): Sys
    requires i < |s.callers|
  {
    s.(callers := s.callers[i := s.callers[i].(pc := pc)])
  }

  predicate Enabled(s: Sys, e: Event) {
    match e
    case Arrive(_) => true
    case Get(i, _) => i < |s.callers| && s.callers[i].pc.Looking?
    case Do(i) => i < |s.callers| && s.callers[i].pc.Missed?
    case Recheck(i, _) => i < |s.callers| && s.callers[i].pc.Rechecking?
    case Load(i, _) => i < |s.callers| && s.callers[i].pc.Loading?
    case Rendered(i, _) => i < |s.callers| && s.callers[i].pc.Rendering?
    case Put(i, _) => i < |s.callers| && s.callers[i].pc.Storing?
    case Publish(i) => i < |s.callers| && s.callers[i].pc.Publishing? && s.callers[i].pc.c < |s.calls|
    case Remove(i) => i < |s.callers| && s.callers[i].pc.Removing?
    case Follow(i) =>
      i < |s.callers| && s.callers[i].pc.Joined? && s.callers[i].pc.c < |s.calls| && s.calls[s.callers[i].pc.c].result.Some?
  }

  function Effect(s: Sys, e: Event): Sys
    requires Enabled(s, e)
  {
    match e
    case Arrive(key) => s.(callers := s.callers + [Caller(key, Looking)])
    case Get(i, look) =>
      var k := s.callers[i].key;
      if look.Answers? && k in s.store then Move(s, i, Returned(Ok(s.store[k]))) else Move(s, i, Missed)
    case Do(i) =>
      var k := s.callers[i].key;
      if k in s.flights then Move(s, i, Joined(s.flights[k]))
      else Move(s, i, Rechecking(|s.calls|)).(flights := s.flights[k := |s.calls|], calls := s.calls + [Call(k, None)])
    case Recheck(i, look) =>
      var k, c := s.callers[i].key, s.callers[i].pc.c;
      if look.Answers? && k in s.store then Move(s, i, Publishing(c, Ok(s.store[k])))
      else Move(s, i, Loading(c)).(blind := if k in s.store then s.blind + {k} else s.blind)
    case Load(i, ok) =>
      var c := s.callers[i].pc.c;
      if ok then Move(s, i, Rendering(c)) else Move(s, i, Publishing(c, Err))
    case Rendered(i, out) =>
      var c := s.callers[i].pc.c;
      if out.Ok? then Move(s, i, Storing(c, out.packed)) else Move(s, i, Publishing(c, Err))
    case Put(i, write) =>
      var k, c, p := s.callers[i].key, s.callers[i].pc.c, s.callers[i].pc.packed;
      if write.Refused? then Move(s, i, Publishing(c, Err))
      else
        // ON CONFLICT DO NOTHING: an existing row stays as it is.
        Move(s, i, Publishing(c, if write.Commits? then Ok(p) else Err))
          .(store := if k in s.store then s.store else s.store[k := p],
            doubled := if k in s.store then s.doubled + {k} else s.doubled,
            clashed := if write.Commits? && Differs(s.store, k, p) then s.clashed + {k} else s.clashed)
    case Publish(i) =>
      var c, out := s.callers[i].pc.c, s.callers[i].pc.out;
      Move(s, i, Removing(c, out)).(calls := s.calls[c := s.calls[c].(result := Some(out))])
    case Remove(i) => Move(s, i, Returned(s.callers[i].pc.out)).(flights := s.flights - {s.callers[i].key})
    case Follow(i) => Move(s, i, Returned(s.calls[s.callers[i].pc.c].result.value))
  }

  function Step(s: Sys, e: Event): Sys {
    if Enabled(s, e) then Effect(s, e) else s
  }

  const EMPTY := Sys([], map[], [], map[], {}, {}, {})

  ghost function Run(events: seq<Event>): Sys {
    if events == [] then EMPTY else Step(Run(events[..|events| - 1]), events[|events| - 1])
  }

  // ---------------------------------------------------------------- one leader a key

  predicate Leads(p: Caller) {
    p.pc.Rechecking? || p.pc.Loading? || p.pc.Rendering? || p.pc.Storing? || p.pc.Publishing? || p.pc.Removing?
  }

  /** Between its re-check and its write, a leader knows the row to be absent. */
  predicate Working(p: Caller) {
    p.pc.Loading? || p.pc.Rendering? || p.pc.Storing?
  }

  /** Every leader is the registered flight of its key, and two callers never share a flight's leadership. */
  ghost predicate Flights(s: Sys) {
    && (forall i :: 0 <= i < |s.callers| && Leads(s.callers[i]) ==>
          s.callers[i].key in s.flights && s.flights[s.callers[i].key] == s.callers[i].pc.c)
    && (forall i, j :: 0 <= i < j < |s.callers| && Leads(s.callers[i]) && Leads(s.callers[j]) ==>
          s.callers[i].key != s.callers[j].key)
    && (forall i :: 0 <= i < |s.callers| && (Leads(s.callers[i]) || s.callers[i].pc.Joined?) ==>
          s.callers[i].pc.c < |s.calls| && s.calls[s.callers[i].pc.c].key == s.callers[i].key)
    && (forall k :: k in s.flights ==> s.flights[k] < |s.calls| && s.calls[s.flights[k]].key == k)
  }

  lemma FlightsKept(s: Sys, e: Event)
    requires Flights(s)
    ensures Flights(Step(s, e))
  {
    hide Effect, Flights;
    if Enabled(s, e) {
      match e
      case Arrive(key) => ArriveKeepsFlights(s, key);
      case Do(i) => DoKeepsFlights(s, i);
      case Remove(i) => RemoveKeepsFlights(s, i);
      case Publish(i) => PublishKeepsFlights(s, i);
      case _ => MovesKeepFlights(s, e);
    }
  }

  lemma ArriveKeepsFlights(s: Sys, key: string)
    requires Flights(s)
    ensures Flights(Effect(s, Arrive(key)))
  {
  }

  lemma PublishKeepsFlights(s: Sys, i: nat)
    requires Flights(s) && Enabled(s, Publish(i))
    ensures Flights(Effect(s, Publish(i)))
  {
  }

  /** Moving one caller keeps the registrations, unless it makes the caller a leader or a follower. */
  lemma MoveKeepsFlights(s: Sys, t: Sys, i: nat)
    requires Flights(s) && i < |s.callers| == |t.callers| && t.flights == s.flights && t.calls == s.calls
    requires forall j :: 0 <= j < |s.callers| && j != i ==> t.callers[j] == s.callers[j]
    requires t.callers[i].key == s.callers[i].key && !t.callers[i].pc.Joined?
    requires Leads(t.callers[i]) ==> Leads(s.callers[i]) && t.callers[i].pc.c == s.callers[i].pc.c
    ensures Flights(t)
  {
    hide Leads;
  }

  lemma MovesKeepFlights(s: Sys, e: Event)
    requires Flights(s) && Enabled(s, e) && (e.Get? || e.Recheck? || e.Load? || e.Rendered? || e.Put? || e.Follow?)
    ensures Flights(Effect(s, e))
  {
    hide Flights;
    MoveKeepsFlights(s, Effect(s, e), e.i);
  }

  lemma DoKeepsFlights(s: Sys, i: nat)
    requires Flights(s) && Enabled(s, Do(i))
    ensures Flights(Effect(s, Do(i)))
  {
  }

  lemma RemoveKeepsFlights(s: Sys, i: nat)
    requires Flights(s) && Enabled(s, Remove(i))
    ensures Flights(Effect(s, Remove(i)))
  {
  }

  // ---------------------------------------------------------------- what every outcome is

  ghost predicate Backed(s: Sys, key: string, out: Outcome) {
    out.Ok? ==> key in s.store && s.store[key] == out.packed
  }

  predicate HasOutcome(p: Caller) {
    p.pc.Publishing? || p.pc.Removing? || p.pc.Returned?
  }

  /** A working leader's row is absent, unless a re-check of its key was blind; and only then can its write find
      the row there. */
  ghost predicate Careful(s: Sys) {
    && s.clashed <= s.doubled <= s.blind
    && forall i :: 0 <= i < |s.callers| && Working(s.callers[i]) && s.callers[i].key !in s.blind ==> s.callers[i].key !in s.store
  }

  /** Every successful outcome of a key without a clash is the stored row. */
  ghost predicate Faithful(s: Sys) {
    && (forall i :: 0 <= i < |s.callers| && HasOutcome(s.callers[i]) && s.callers[i].key !in s.clashed ==>
          Backed(s, s.callers[i].key, s.callers[i].pc.out))
    && (forall c :: 0 <= c < |s.calls| && s.calls[c].result.Some? && s.calls[c].key !in s.clashed ==>
          Backed(s, s.calls[c].key, s.calls[c].result.value))
  }

  /** A key with a clash has a caller whose outcome is not the stored row. */
  ghost predicate Betrayed(s: Sys, k: string) {
    exists i :: 0 <= i < |s.callers| && IsBetrayed(s, k, s.callers[i])
  }

  predicate IsBetrayed(s: Sys, k: string, p: Caller) {
    p.key == k && HasOutcome(p) && p.pc.out.Ok? && Differs(s.store, k, p.pc.out.packed)
  }

  ghost predicate Exact(s: Sys) {
    forall k :: k in s.clashed ==> Betrayed(s, k)
  }

  /** A committed write makes a row for its key, so no other leader may be working on that key. */
  lemma CarefulKeptByPut(s: Sys, i: nat, write: Write)
    requires Flights(s) && Careful(s) && Enabled(s, Put(i, write))
    ensures Careful(Effect(s, Put(i, write)))
  {
  }

  lemma MoveKeepsCareful(s: Sys, t: Sys, i: nat)
    requires Careful(s) && i < |s.callers| == |t.callers| && t.store == s.store
    requires t.clashed == s.clashed && t.doubled == s.doubled && s.blind <= t.blind
    requires forall j :: 0 <= j < |s.callers| && j != i ==> t.callers[j] == s.callers[j]
    requires t.callers[i].key == s.callers[i].key
    requires Working(t.callers[i]) ==> Working(s.callers[i]) || s.callers[i].key in t.blind || s.callers[i].key !in s.store
    ensures Careful(t)
  {
    hide Working;
  }

  lemma CarefulKept(s: Sys, e: Event)
    requires Flights(s) && Careful(s)
    ensures Careful(Step(s, e))
  {
    hide Flights, Careful;
    if Enabled(s, e) {
      if e.Put? {
        CarefulKeptByPut(s, e.i, e.write);
      } else if e.Arrive? {
        CarefulKeptByArrive(s, e.key);
      } else {
        MoveKeepsCareful(s, Effect(s, e), e.i);
      }
    }
  }

  lemma CarefulKeptByArrive(s: Sys, key: string)
    requires Careful(s)
    ensures Careful(Effect(s, Arrive(key)))
  {
  }

  /** Moving one caller keeps the promises, if it takes on an outcome that is already backed. */
  lemma MoveKeepsFaithful(s: Sys, t: Sys, i: nat)
    requires Faithful(s) && i < |s.callers| == |t.callers| && t.calls == s.calls && s.clashed <= t.clashed
    requires forall k :: k in s.store ==> k in t.store && t.store[k] == s.store[k]
    requires forall j :: 0 <= j < |s.callers| && j != i ==> t.callers[j] == s.callers[j]
    requires t.callers[i].key == s.callers[i].key
    requires HasOutcome(t.callers[i]) && s.callers[i].key !in t.clashed ==> Backed(t, s.callers[i].key, t.callers[i].pc.out)
    ensures Faithful(t)
  {
  }

  lemma FaithfulKept(s: Sys, e: Event)
    requires Flights(s) && Faithful(s)
    ensures Faithful(Step(s, e))
  {
    if Enabled(s, e) {
      if e.Publish? || e.Arrive? || e.Do? {
        RegistrationsKeepFaithful(s, e);
      } else {
        hide Backed, Faithful;
        OutcomeTaken(s, e);
        MoveKeepsFaithful(s, Effect(s, e), e.i);
      }
    }
  }

  /** The outcome that a caller takes on in a step is the stored row, or a clash is recorded. */
  lemma OutcomeTaken(s: Sys, e: Event)
    requires Flights(s) && Faithful(s) && Enabled(s, e) && !e.Publish? && !e.Arrive? && !e.Do?
    ensures var t := Effect(s, e);
      HasOutcome(t.callers[e.i]) && s.callers[e.i].key !in t.clashed ==> Backed(t, s.callers[e.i].key, t.callers[e.i].pc.out)
  {
  }

  lemma RegistrationsKeepFaithful(s: Sys, e: Event)
    requires Flights(s) && Faithful(s) && Enabled(s, e) && (e.Publish? || e.Arrive? || e.Do?)
    ensures Faithful(Effect(s, e))
  {
    assert Effect(s, e).store == s.store && Effect(s, e).clashed == s.clashed;
  }

  /** An outcome is carried on to the return, and rows stay, so a betrayed caller stays one. */
  lemma BetrayedStays(s: Sys, e: Event, k: string)
    requires Betrayed(s, k)
    ensures Betrayed(Step(s, e), k)
  {
    hide Effect, Enabled;
    var i :| 0 <= i < |s.callers| && IsBetrayed(s, k, s.callers[i]);
    OutcomeStays(s, e, i);
    StoredRowStays(s, e, k);
    assert IsBetrayed(Step(s, e), k, Step(s, e).callers[i]);
  }

  lemma KeysStay(s: Sys, e: Event)
    requires Enabled(s, e)
    ensures |Effect(s, e).callers| == |s.callers| + if e.Arrive? then 1 else 0
    ensures !e.Arrive? ==> Effect(s, e).callers[e.i].key == s.callers[e.i].key
  {
  }

  /** A step moves no caller but its own. */
  lemma OthersStay(s: Sys, e: Event, i: nat)
    requires Enabled(s, e) && i < |Effect(s, e).callers| && (e.Arrive? || i != e.i)
    ensures if i < |s.callers| then Effect(s, e).callers[i] == s.callers[i] else Effect(s, e).callers[i].pc.Looking?
  {
  }

  lemma OwnOutcomeStays(s: Sys, e: Event)
    requires Enabled(s, e) && !e.Arrive? && HasOutcome(s.callers[e.i])
    ensures HasOutcome(Effect(s, e).callers[e.i]) && Effect(s, e).callers[e.i].pc.out == s.callers[e.i].pc.out
  {
    assert e.Publish? || e.Remove?;
  }

  lemma OutcomeStays(s: Sys, e: Event, i: nat)
    requires i < |s.callers| && HasOutcome(s.callers[i])
    ensures var t := Step(s, e);
      i < |t.callers| && t.callers[i].key == s.callers[i].key && HasOutcome(t.callers[i]) && t.callers[i].pc.out == s.callers[i].pc.out
  {
    hide Enabled, Effect;
    if Enabled(s, e) {
      KeysStay(s, e);
      if e.Arrive? || i != e.i {
        OthersStay(s, e, i);
      } else {
        OwnOutcomeStays(s, e);
      }
    }
  }

  /** After a clash the writing caller holds bytes that are not the row's. */
  lemma ClashBetrays(s: Sys, i: nat)
    requires Enabled(s, Put(i, Commits)) && Differs(s.store, s.callers[i].key, s.callers[i].pc.packed)
    ensures Betrayed(Effect(s, Put(i, Commits)), s.callers[i].key)
  {
    var t := Effect(s, Put(i, Commits));
    assert IsBetrayed(t, s.callers[i].key, t.callers[i]);
  }

  lemma ClashOnlyByPut(s: Sys, e: Event, k: string)
    requires k in Step(s, e).clashed && k !in s.clashed
    ensures e.Put? && e.write.Commits? && Enabled(s, e) && k == s.callers[e.i].key && Differs(s.store, k, s.callers[e.i].pc.packed)
  {
  }

  lemma ExactKept(s: Sys, e: Event)
    requires Exact(s)
    ensures Exact(Step(s, e))
  {
    hide Step, Effect, Betrayed;
    forall k | k in Step(s, e).clashed
      ensures Betrayed(Step(s, e), k)
    {
      if k in s.clashed {
        BetrayedStays(s, e, k);
      } else {
        ClashOnlyByPut(s, e, k);
        ClashBetrays(s, e.i);
        StepIsEffect(s, e);
      }
    }
  }

  lemma StepIsEffect(s: Sys, e: Event)
    requires Enabled(s, e)
    ensures Step(s, e) == Effect(s, e)
  {
  }

  lemma {:induction false} RunKeeps(events: seq<Event>)
    ensures var s := Run(events); Flights(s) && Careful(s) && Faithful(s) && Exact(s)
  {
    if events != [] {
      RunKeeps(events[..|events| - 1]);
      hide Step, Flights, Careful, Faithful, Exact;
      var s, e := Run(events[..|events| - 1]), events[|events| - 1];
      FlightsKept(s, e);
      CarefulKept(s, e);
      FaithfulKept(s, e);
      ExactKept(s, e);
    }
  }

  // ---------------------------------------------------------------- the history in terms of events

  /** Some event of the run, in the state that it meets, is one of these. */
  ghost predicate Happened(events: seq<Event>, what: (Sys, Event) -> bool) {
    exists n :: 0 <= n < |events| && HappenedAt(events, what, n)
  }

  ghost predicate HappenedAt(events: seq<Event>, what: (Sys, Event) -> bool, n: nat)
    requires n < |events|
  {
    what(Run(events[..n]), events[n])
  }

  lemma NothingHappened(what: (Sys, Event) -> bool)
    ensures !Happened([], what)
  {
  }

  lemma HappenedLast(events: seq<Event>, what: (Sys, Event) -> bool)
    requires events != []
    ensures var n := |events| - 1; Happened(events, what) <==> Happened(events[..n], what) || what(Run(events[..n]), events[n])
  {
    hide Run;
    var n := |events| - 1;
    forall m | 0 <= m < n
      ensures HappenedAt(events, what, m) <==> HappenedAt(events[..n], what, m)
    {
      assert events[..n][..m] == events[..m];
    }
    assert HappenedAt(events, what, n) <==> what(Run(events[..n]), events[n]);
    if Happened(events, what) && !HappenedAt(events, what, n) {
      var m :| 0 <= m < |events| && HappenedAt(events, what, m);
      assert HappenedAt(events[..n], what, m);
    }
    if Happened(events[..n], what) {
      var m :| 0 <= m < n && HappenedAt(events[..n], what, m);
      assert HappenedAt(events, what, m);
    }
  }

  /** A re-check of the key fails although its row is there. */
  function Blinding(k: string): (Sys, Event) -> bool {
    (s, e) => Enabled(s, e) && e.Recheck? && s.callers[e.i].key == k && e.look == Fails && k in s.store
  }

  /** A write of the key commits, known to its caller or not. */
  function Committing(k: string): (Sys, Event) -> bool {
    (s, e) => Enabled(s, e) && e.Put? && s.callers[e.i].key == k && e.write != Refused
  }

  /** Such a write finds the row there. */
  function Doubling(k: string): (Sys, Event) -> bool {
    (s, e) => Enabled(s, e) && e.Put? && s.callers[e.i].key == k && e.write != Refused && k in s.store
  }

  /** A write of the key reports success although its row is there with other bytes. */
  function Clashing(k: string): (Sys, Event) -> bool {
    (s, e) => Enabled(s, e) && e.Put? && s.callers[e.i].key == k && e.write == Commits && Differs(s.store, k, s.callers[e.i].pc.packed)
  }

  lemma HistoryElsewhere(s: Sys, e: Event)
    requires Enabled(s, e)
    ensures var t := Effect(s, e);
      && (!e.Put? ==> t.store == s.store && t.doubled == s.doubled && t.clashed == s.clashed)
      && (!e.Recheck? ==> t.blind == s.blind)
  {
  }

  lemma HistoryByPut(s: Sys, e: Event, k: string)
    requires e.Put? && Enabled(s, e)
    ensures var t := Effect(s, e);
      && (k in t.store <==> k in s.store || Committing(k)(s, e))
      && (k in t.doubled <==> k in s.doubled || Doubling(k)(s, e))
      && (k in t.clashed <==> k in s.clashed || Clashing(k)(s, e))
  {
  }

  lemma HistoryByRecheck(s: Sys, e: Event, k: string)
    requires e.Recheck? && Enabled(s, e)
    ensures k in Effect(s, e).blind <==> k in s.blind || Blinding(k)(s, e)
  {
  }

  lemma HistoryStep(s: Sys, e: Event, k: string)
    ensures var t := Step(s, e);
      && (k in t.blind <==> k in s.blind || Blinding(k)(s, e))
      && (k in t.store <==> k in s.store || Committing(k)(s, e))
      && (k in t.doubled <==> k in s.doubled || Doubling(k)(s, e))
      && (k in t.clashed <==> k in s.clashed || Clashing(k)(s, e))
  {
    hide Enabled, Effect;
    if Enabled(s, e) {
      HistoryElsewhere(s, e);
      if e.Put? {
        HistoryByPut(s, e, k);
      }
      if e.Recheck? {
        HistoryByRecheck(s, e, k);
      }
    }
  }

  /** The recorded history is that of the events. */
  lemma {:induction false} HistoryOfEvents(events: seq<Event>, k: string)
    ensures var s := Run(events);
      && (k in s.blind <==> Happened(events, Blinding(k)))
      && (k in s.store <==> Happened(events, Committing(k)))
      && (k in s.doubled <==> Happened(events, Doubling(k)))
      && (k in s.clashed <==> Happened(events, Clashing(k)))
  {
    hide Step, Happened, Blinding, Committing, Doubling, Clashing;
    if events == [] {
      NothingHappened(Blinding(k));
      NothingHappened(Committing(k));
      NothingHappened(Doubling(k));
      NothingHappened(Clashing(k));
    } else {
      var n := |events| - 1;
      HistoryOfEvents(events[..n], k);
      HistoryStep(Run(events[..n]), events[n], k);
      HappenedLast(events, Blinding(k));
      HappenedLast(events, Committing(k));
      HappenedLast(events, Doubling(k));
      HappenedLast(events, Clashing(k));
    }
  }

  // ---------------------------------------------------------------- the promises

  /** At most one render of a variant runs at a time. */
  lemma OneRenderAtATime(events: seq<Event>, i: nat, j: nat)
    ensures var cs := Run(events).callers;
      i < |cs| && j < |cs| && cs[i].pc.Rendering? && cs[j].pc.Rendering? && cs[i].key == cs[j].key ==> i == j
  {
    RunKeeps(events);
  }

  ghost predicate CommittedTwice(events: seq<Event>, k: string) {
    exists n, m :: 0 <= n < m < |events| && HappenedAt(events, Committing(k), n) && HappenedAt(events, Committing(k), m)
  }

  /** At most one render of a variant ends in a committed write exactly if no committed write of it found the row
      there; and none does without a blind re-check of that variant. */
  lemma OneStoredRender(events: seq<Event>, k: string)
    ensures CommittedTwice(events, k) <==> Happened(events, Doubling(k))
    ensures Happened(events, Doubling(k)) ==> Happened(events, Blinding(k))
  {
    RunKeeps(events);
    HistoryOfEvents(events, k);
    hide Run;
    if n, m :| 0 <= n < m < |events| && HappenedAt(events, Committing(k), n) && HappenedAt(events, Committing(k), m) {
      HistoryOfEvents(events[..m], k);
      assert events[..m][..n] == events[..n];
      assert HappenedAt(events[..m], Committing(k), n);
      assert HappenedAt(events, Doubling(k), m);
    }
    if m :| 0 <= m < |events| && HappenedAt(events, Doubling(k), m) {
      HistoryOfEvents(events[..m], k);
      var n :| 0 <= n < m && HappenedAt(events[..m], Committing(k), n);
      assert events[..m][..n] == events[..n];
      assert HappenedAt(events, Committing(k), n) && HappenedAt(events, Committing(k), m);
    }
  }

  /** All outcomes of a key, those returned and those on their way, are successes with the stored bytes or
      failures. */
  ghost predicate AllStored(s: Sys, k: string) {
    && (forall i :: 0 <= i < |s.callers| && s.callers[i].key == k && HasOutcome(s.callers[i]) ==> Backed(s, k, s.callers[i].pc.out))
    && (forall c :: 0 <= c < |s.calls| && s.calls[c].key == k && s.calls[c].result.Some? ==> Backed(s, k, s.calls[c].result.value))
  }

  /** In every run, every success of a key has the stored bytes exactly if the key has no clash: no successful
      write of other bytes over its row. Without a blind re-check of that key there is none, whatever happened to
      other keys. */
  lemma CallersReturnStoredBytes(events: seq<Event>, k: string)
    ensures AllStored(Run(events), k) <==> !Happened(events, Clashing(k))
    ensures Happened(events, Clashing(k)) ==> Happened(events, Blinding(k))
  {
    RunKeeps(events);
    HistoryOfEvents(events, k);
    var s := Run(events);
    if k in s.clashed {
      assert Betrayed(s, k);
    }
  }

  // ---------------------------------------------------------------- errors

  /** This event is a failure on the key: its image does not load, its render fails, or its write is refused or
      not known to have committed. */
  predicate FailsNow(s: Sys, e: Event, k: string) {
    Enabled(s, e) &&
    match e
    case Load(i, ok) => s.callers[i].key == k && !ok
    case Rendered(i, out) => s.callers[i].key == k && out == Err
    case Put(i, write) => s.callers[i].key == k && write != Commits
    case _ => false
  }

  function Failing(k: string): (Sys, Event) -> bool {
    (s, e) => FailsNow(s, e, k)
  }

  predicate IsErred(p: Caller, k: string) {
    p.key == k && HasOutcome(p) && p.pc.out == Err
  }

  /** Some caller of the key is answered with an error, or about to be. */
  ghost predicate Erred(s: Sys, k: string) {
    exists i :: 0 <= i < |s.callers| && IsErred(s.callers[i], k)
  }

  /** The error of a call is that of its leader. */
  ghost predicate CallsErr(s: Sys) {
    forall c :: 0 <= c < |s.calls| && s.calls[c].result == Some(Err) ==> Erred(s, s.calls[c].key)
  }

  lemma ErredStays(s: Sys, e: Event, k: string)
    requires Erred(s, k)
    ensures Erred(Step(s, e), k)
  {
    hide Step;
    var i :| 0 <= i < |s.callers| && IsErred(s.callers[i], k);
    OutcomeStays(s, e, i);
    assert IsErred(Step(s, e).callers[i], k);
  }

  lemma FailureErrs(s: Sys, e: Event, k: string)
    requires FailsNow(s, e, k)
    ensures Erred(Step(s, e), k)
  {
    assert IsErred(Step(s, e).callers[e.i], k);
  }

  lemma FollowErred(s: Sys, i: nat, k: string)
    requires Flights(s) && CallsErr(s) && Enabled(s, Follow(i)) && IsErred(Effect(s, Follow(i)).callers[i], k)
    ensures Erred(s, k)
  {
    assert s.calls[s.callers[i].pc.c].result == Some(Err);
  }

  /** A step that gives a caller an error is its failure, or hands it the error of its call. */
  lemma ErrOfCaller(s: Sys, e: Event)
    requires Enabled(s, e) && !e.Arrive? && IsErred(Effect(s, e).callers[e.i], s.callers[e.i].key)
    ensures IsErred(s.callers[e.i], s.callers[e.i].key) || FailsNow(s, e, s.callers[e.i].key) || e.Follow?
  {
  }

  /** An error that a caller takes on in a step is of a failure in that step, or of its call. */
  lemma ErrTaken(s: Sys, e: Event, k: string, i: nat)
    requires Flights(s) && CallsErr(s) && i < |Step(s, e).callers| && IsErred(Step(s, e).callers[i], k)
    ensures Erred(s, k) || FailsNow(s, e, k)
  {
    hide Enabled, Effect, Flights, CallsErr, FailsNow;
    if Enabled(s, e) {
      if e.Arrive? || i != e.i {
        OthersStay(s, e, i);
      } else {
        KeysStay(s, e);
        ErrOfCaller(s, e);
        if e.Follow? && !IsErred(s.callers[i], k) {
          FollowErred(s, i, k);
        }
      }
    }
  }

  lemma ErredByStep(s: Sys, e: Event, k: string)
    requires Flights(s) && CallsErr(s)
    ensures Erred(Step(s, e), k) <==> Erred(s, k) || FailsNow(s, e, k)
  {
    hide Step, Enabled, Flights, CallsErr, FailsNow;
    if Erred(Step(s, e), k) {
      var i :| 0 <= i < |Step(s, e).callers| && IsErred(Step(s, e).callers[i], k);
      ErrTaken(s, e, k, i);
    }
    if Erred(s, k) {
      ErredStays(s, e, k);
    }
    if FailsNow(s, e, k) {
      FailureErrs(s, e, k);
    }
  }

  lemma PublishErrs(s: Sys, e: Event, c: nat)
    requires Flights(s) && c < |Step(s, e).calls| && Step(s, e).calls[c].result == Some(Err)
    ensures (c < |s.calls| && s.calls[c].result == Some(Err) && s.calls[c].key == Step(s, e).calls[c].key)
            || Erred(s, Step(s, e).calls[c].key)
  {
    if e.Publish? && Enabled(s, e) && c == s.callers[e.i].pc.c {
      assert IsErred(s.callers[e.i], s.calls[c].key);
    }
  }

  lemma CallsErrKept(s: Sys, e: Event)
    requires Flights(s) && CallsErr(s)
    ensures CallsErr(Step(s, e))
  {
    hide Step, Flights, Erred;
    forall c | 0 <= c < |Step(s, e).calls| && Step(s, e).calls[c].result == Some(Err)
      ensures Erred(Step(s, e), Step(s, e).calls[c].key)
    {
      PublishErrs(s, e, c);
      ErredStays(s, e, Step(s, e).calls[c].key);
    }
  }

  /** In every run a caller of a key meets an error exactly if a load, render or write of that key failed: a failed
      read is a miss, and what happens to other keys never matters. */
  lemma {:induction false} ErrIffFailed(events: seq<Event>, k: string)
    ensures CallsErr(Run(events))
    ensures Erred(Run(events), k) <==> Happened(events, Failing(k))
  {
    hide Step, Flights, Erred, CallsErr, FailsNow, Happened;
    if events == [] {
      NoErrAtStart(k);
      NothingHappened(Failing(k));
    } else {
      var n := |events| - 1;
      var before := events[..n];
      ErrIffFailed(before, k);
      RunKeeps(before);
      CallsErrKept(Run(before), events[n]);
      ErredByStep(Run(before), events[n], k);
      HappenedLast(events, Failing(k));
    }
  }

  lemma NoErrAtStart(k: string)
    ensures CallsErr(EMPTY) && !Erred(EMPTY, k)
  {
  }

  /** The outcome is a success with the stored bytes. */
  predicate Served(s: Sys, k: string, p: Caller) {
    p.key == k && HasOutcome(p) ==> k in s.store && p.pc.out == Ok(s.store[k])
  }

  /** In every run, every answered caller of a key has the stored bytes exactly if nothing failed on that key and it
      has no clash. */
  lemma CallersAreServed(events: seq<Event>, k: string)
    ensures var s := Run(events);
      (forall i :: 0 <= i < |s.callers| ==> Served(s, k, s.callers[i])) <==>
      !Happened(events, Failing(k)) && !Happened(events, Clashing(k))
  {
    hide Run, Happened, Flights, Careful, Faithful, CallsErr;
    RunKeeps(events);
    ErrIffFailed(events, k);
    HistoryOfEvents(events, k);
    CallersReturnStoredBytes(events, k);
    var s := Run(events);
    if k in s.clashed {
      var i :| 0 <= i < |s.callers| && IsBetrayed(s, k, s.callers[i]);
      assert !Served(s, k, s.callers[i]);
    }
    if i :| 0 <= i < |s.callers| && IsErred(s.callers[i], k) {
      assert !Served(s, k, s.callers[i]);
    }
    if i :| 0 <= i < |s.callers| && !Served(s, k, s.callers[i]) {
      assert IsErred(s.callers[i], k) || !Backed(s, k, s.callers[i].pc.out);
    }
  }

  /** A caller whose read answers while the row is there returns its bytes at once, and joins no flight. */
  lemma HitReturnsRow(s: Sys, i: nat)
    requires i < |s.callers| && s.callers[i].pc.Looking? && s.callers[i].key in s.store
    ensures var t := Step(s, Get(i, Answers));
      t == s.(callers := s.callers[i := Caller(s.callers[i].key, Returned(Ok(s.store[s.callers[i].key])))])
  {
  }

  /** Once a key has a clash, some caller goes on to return bytes that are not the stored ones. */
  lemma ClashReachesCaller(events: seq<Event>, k: string) returns (more: seq<Event>, i: nat)
    requires Happened(events, Clashing(k))
    ensures |more| <= 2
    ensures var t := Play(Run(events), more);
      i < |t.callers| && t.callers[i].key == k && t.callers[i].pc.Returned? && IsBetrayed(t, k, t.callers[i])
  {
    RunKeeps(events);
    HistoryOfEvents(events, k);
    hide Run, Happened;
    var s := Run(events);
    assert Betrayed(s, k);
    i :| 0 <= i < |s.callers| && IsBetrayed(s, k, s.callers[i]);
    more := Finish(s, i);
  }

  lemma Finish(s: Sys, i: nat) returns (more: seq<Event>)
    requires Flights(s) && i < |s.callers| && HasOutcome(s.callers[i])
    ensures |more| <= 2
    ensures var t := Play(s, more);
      t.store == s.store && i < |t.callers| && t.callers[i] == s.callers[i].(pc := Returned(s.callers[i].pc.out))
  {
    if s.callers[i].pc.Publishing? {
      more := [Publish(i), Remove(i)];
      assert Enabled(s, Publish(i));
      assert more[1..] == [Remove(i)] && more[1..][1..] == [];
      assert Play(Step(s, Publish(i)), more[1..]) == Play(Step(Step(s, Publish(i)), Remove(i)), []);
    } else if s.callers[i].pc.Removing? {
      more := [Remove(i)];
      assert more[1..] == [];
      assert Play(s, more) == Play(Step(s, Remove(i)), []);
    } else {
      more := [];
    }
  }

  /** Whether the n-th event ends a render of its caller's key with the bytes that f gives that key. */
  ghost predicate RendersAs(events: seq<Event>, f: string -> Bytes, n: nat)
    requires n < |events|
  {
    var s, e := Run(events[..n]), events[n];
    Enabled(s, e) && e.Rendered? && e.out.Ok? ==> e.out.packed == f(s.callers[e.i].key)
  }

  /** Renders that always give a variant the same bytes never clash, whatever reads and writes fail. */
  lemma SameBytesNeverClash(events: seq<Event>, f: string -> Bytes, k: string)
    requires forall n :: 0 <= n < |events| ==> RendersAs(events, f, n)
    ensures !Happened(events, Clashing(k))
  {
    NoClashOverRun(events, f);
    HistoryOfEvents(events, k);
  }

  lemma {:induction false} NoClashOverRun(events: seq<Event>, f: string -> Bytes)
    requires forall n :: 0 <= n < |events| ==> RendersAs(events, f, n)
    ensures Run(events).clashed == {} && OnlyRendered(Run(events), f)
  {
    if events != [] {
      var n := |events| - 1;
      forall m | 0 <= m < n
        ensures RendersAs(events[..n], f, m)
      {
        assert RendersAs(events, f, m) && events[..n][..m] == events[..m];
      }
      NoClashOverRun(events[..n], f);
      assert RendersAs(events, f, n);
      OnlyRenderedKept(Run(events[..n]), events[n], f);
    }
  }

  ghost predicate OnlyRendered(s: Sys, f: string -> Bytes) {
    && (forall k :: k in s.store ==> s.store[k] == f(k))
    && (forall i :: 0 <= i < |s.callers| && s.callers[i].pc.Storing? ==> s.callers[i].pc.packed == f(s.callers[i].key))
  }

  lemma OnlyRenderedKept(s: Sys, e: Event, f: string -> Bytes)
    requires OnlyRendered(s, f) && s.clashed == {}
    requires Enabled(s, e) && e.Rendered? && e.out.Ok? ==> e.out.packed == f(s.callers[e.i].key)
    ensures OnlyRendered(Step(s, e), f) && Step(s, e).clashed == {}
  {
  }

  /** A stored row is never replaced. */
  lemma StoredRowStays(s: Sys, e: Event, k: string)
    requires k in s.store
    ensures k in Step(s, e).store && Step(s, e).store[k] == s.store[k]
  {
  }

  /** Followers get the leader's outcome, success or failure. */
  lemma FollowerGetsLeadersOutcome(s: Sys, i: nat, j: nat)
    requires Flights(s) && Enabled(s, Publish(i)) && j < |s.callers| && s.callers[j].pc.Joined?
    requires s.callers[j].pc.c == s.callers[i].pc.c
    ensures s.callers[i].key == s.callers[j].key
    ensures Step(Step(s, Publish(i)), Follow(j)).callers[j].pc == Returned(s.callers[i].pc.out)
  {
  }

  ghost function Play(s: Sys, events: seq<Event>): Sys
    decreases |events|
  {
    if events == [] then s else Play(Step(s, events[0]), events[1..])
  }

  lemma {:induction false} PlayConcat(s: Sys, a: seq<Event>, b: seq<Event>)
    ensures Play(s, a + b) == Play(Play(s, a), b)
    decreases |a|
  {
    hide Step;
    if a == [] {
      assert a + b == b;
    } else {
      PlayConcat(Step(s, a[0]), a[1..], b);
      assert (a + b)[1..] == a[1..] + b;
    }
  }

  lemma {:induction false} RunIsPlay(events: seq<Event>)
    ensures Run(events) == Play(EMPTY, events)
  {
    hide Step, EMPTY;
    if events != [] {
      var n := |events| - 1;
      RunIsPlay(events[..n]);
      PlayConcat(EMPTY, events[..n], [events[n]]);
      assert events == events[..n] + [events[n]];
      assert [events[n]][1..] == [];
    }
  }

  /** One caller going through the flight alone, from its arrival. */
  ghost function Pass(key: string, i: nat, look: Look, packed: Bytes): seq<Event> {
    [Arrive(key), Get(i, look), Do(i), Recheck(i, look), Load(i, true), Rendered(i, Ok(packed)), Put(i, Commits), Publish(i), Remove(i)]
  }

  /** Where it ends, when the row is absent or the reads of it fail. */
  ghost function Passed(s: Sys, key: string, packed: Bytes): Sys {
    s.(callers := s.callers + [Caller(key, Returned(Ok(packed)))], calls := s.calls + [Call(key, Some(Ok(packed)))],
       store := if key in s.store then s.store else s.store[key := packed],
       blind := if key in s.store then s.blind + {key} else s.blind,
       doubled := if key in s.store then s.doubled + {key} else s.doubled,
       clashed := if Differs(s.store, key, packed) then s.clashed + {key} else s.clashed)
  }

  lemma PassRuns(s: Sys, key: string, look: Look, packed: Bytes)
    requires key !in s.flights && (look.Fails? || key !in s.store)
    ensures Play(s, Pass(key, |s.callers|, look, packed)) == Passed(s, key, packed)
  {
    hide Step;
    var i := |s.callers|;
    var es := Pass(key, i, look, packed);
    PlayNine(s, es);
    ToStore(s, key, look, packed);
    AtReturn(StoringState(s, key, packed), i);
    ReturnIsPassed(s, key, packed);
  }

  ghost function StoringState(s: Sys, key: string, packed: Bytes): Sys {
    s.(callers := s.callers + [Caller(key, Storing(|s.calls|, packed))], flights := s.flights[key := |s.calls|],
       calls := s.calls + [Call(key, None)], blind := if key in s.store then s.blind + {key} else s.blind)
  }

  lemma ToStore(s: Sys, key: string, look: Look, packed: Bytes)
    requires key !in s.flights && (look.Fails? || key !in s.store)
    ensures var es := Pass(key, |s.callers|, look, packed);
      Step(Step(Step(Step(Step(Step(s, es[0]), es[1]), es[2]), es[3]), es[4]), es[5]) == StoringState(s, key, packed)
  {
    hide Step;
    var i := |s.callers|;
    AtRecheck(s, key, look);
    var t := Step(Step(Step(s, Arrive(key)), Get(i, look)), Do(i));
    AtStore(t, i, look, packed);
    assert t.callers[i := Caller(key, Storing(|s.calls|, packed))] == s.callers + [Caller(key, Storing(|s.calls|, packed))];
  }

  lemma ReturnIsPassed(s: Sys, key: string, packed: Bytes)
    requires key !in s.flights
    ensures var u, i, c := StoringState(s, key, packed), |s.callers|, |s.calls|;
      Move(u, i, Returned(Ok(packed))).(calls := u.calls[c := u.calls[c].(result := Some(Ok(packed)))], flights := u.flights - {key},
        store := if key in u.store then u.store else u.store[key := packed],
        doubled := if key in u.store then u.doubled + {key} else u.doubled,
        clashed := if Differs(u.store, key, packed) then u.clashed + {key} else u.clashed) == Passed(s, key, packed)
  {
    var u, i, c := StoringState(s, key, packed), |s.callers|, |s.calls|;
    assert u.callers[i := Caller(key, Returned(Ok(packed)))] == s.callers + [Caller(key, Returned(Ok(packed)))];
    assert u.calls[c := Call(key, Some(Ok(packed)))] == s.calls + [Call(key, Some(Ok(packed)))];
    assert s.flights[key := c] - {key} == s.flights;
  }

  lemma PlayNine(s: Sys, es: seq<Event>)
    requires |es| == 9
    ensures Play(s, es) ==
      Step(Step(Step(Step(Step(Step(Step(Step(Step(s, es[0]), es[1]), es[2]), es[3]), es[4]), es[5]), es[6]), es[7]), es[8])
  {
    hide Step;
    PlayConcat(s, es[..3], es[3..]);
    PlayThree(s, es[..3]);
    var t := Play(s, es[..3]);
    PlayConcat(t, es[3..6], es[6..]);
    PlayThree(t, es[3..6]);
    PlayThree(Play(t, es[3..6]), es[6..]);
    assert es == es[..3] + es[3..] && es[3..] == es[3..6] + es[6..];
  }

  lemma PlayThree(s: Sys, es: seq<Event>)
    requires |es| == 3
    ensures Play(s, es) == Step(Step(Step(s, es[0]), es[1]), es[2])
  {
    hide Step;
    var u := Step(Step(s, es[0]), es[1]);
    assert es[1..][1..] == es[2..] && es[1..][0] == es[1] && es[2..][0] == es[2] && es[2..][1..] == [];
    assert Play(Step(s, es[0]), es[1..]) == Play(u, es[2..]);
    assert Play(u, es[2..]) == Play(Step(u, es[2]), []);
  }

  lemma AtRecheck(s: Sys, key: string, look: Look)
    requires key !in s.flights && (look.Fails? || key !in s.store)
    ensures var i := |s.callers|;
      Step(Step(Step(s, Arrive(key)), Get(i, look)), Do(i)) ==
      s.(callers := s.callers + [Caller(key, Rechecking(|s.calls|))], flights := s.flights[key := |s.calls|], calls := s.calls + [Call(key, None)])
  {
    var i := |s.callers|;
    var t := Step(Step(s, Arrive(key)), Get(i, look));
    assert t == s.(callers := s.callers + [Caller(key, Missed)]);
  }

  lemma AtStore(s: Sys, i: nat, look: Look, packed: Bytes)
    requires i < |s.callers| && s.callers[i].pc.Rechecking? && (look.Fails? || s.callers[i].key !in s.store)
    ensures Step(Step(Step(s, Recheck(i, look)), Load(i, true)), Rendered(i, Ok(packed))) ==
      Move(s, i, Storing(s.callers[i].pc.c, packed))
        .(blind := if s.callers[i].key in s.store then s.blind + {s.callers[i].key} else s.blind)
  {
    var t := Step(s, Recheck(i, look));
    assert t.callers[i].pc == Loading(s.callers[i].pc.c);
    var u := Step(t, Load(i, true));
    assert u.callers[i].pc == Rendering(s.callers[i].pc.c);
  }

  lemma AtReturn(s: Sys, i: nat)
    requires i < |s.callers| && s.callers[i].pc.Storing? && s.callers[i].pc.c < |s.calls|
    ensures var k, c, p := s.callers[i].key, s.callers[i].pc.c, s.callers[i].pc.packed;
      Step(Step(Step(s, Put(i, Commits)), Publish(i)), Remove(i)) ==
      Move(s, i, Returned(Ok(p))).(calls := s.calls[c := s.calls[c].(result := Some(Ok(p)))], flights := s.flights - {k},
        store := if k in s.store then s.store else s.store[k := p],
        doubled := if k in s.store then s.doubled + {k} else s.doubled,
        clashed := if Differs(s.store, k, p) then s.clashed + {k} else s.clashed)
  {
    var c, p := s.callers[i].pc.c, s.callers[i].pc.packed;
    var t := Step(s, Put(i, Commits));
    assert t.callers[i].pc == Publishing(c, Ok(p));
    var u := Step(t, Publish(i));
    assert u.callers[i].pc == Removing(c, Ok(p));
  }

  /** Clashes happen: the write reports success over an existing row, so after a re-check that failed on that row a
      caller returns bytes that are not the stored ones. */
  lemma BlindRecheckReturnsOtherBytes(key: string) returns (events: seq<Event>)
    ensures var s := Run(events);
      s.clashed == {key} && |s.callers| == 2 && s.callers[1].pc == Returned(Ok([2])) && s.store == map[key := [1]]
  {
    var a, b := Pass(key, 0, Answers, [1]), Pass(key, 1, Fails, [2]);
    PassRuns(EMPTY, key, Answers, [1]);
    PassRuns(Passed(EMPTY, key, [1]), key, Fails, [2]);
    hide Step, Pass;
    events := a + b;
    PlayConcat(EMPTY, a, b);
    RunIsPlay(a + b);
  }
}
