/** The C2 command channel: one device, its backend, the requests between them, and the operator, as a step
    system in which requests may be delayed or lost, answered requests replayed, polls forged by anyone who does
    not hold the session secret, and the device may lose power between any two steps. */
module C2 {
  import opened Machine
  import Session

  const FLEET := "*"
  const U32_MAX: nat := 0xFFFF_FFFF

  // ---------------------------------------------------------------- the command queue

  /** A row of command_queue; the script itself is opaque, its idempotency key may be absent. */
  datatype Row = Row(serial: string, key: Option<string>, applied: bool)

  type Queue = map<nat, Row>

  predicate TargetsSn(serial: string, sn: string) {
    serial == sn || serial == FLEET
  }

  predicate TargetsSerial(r: Row, sn: string) {
    TargetsSn(r.serial, sn)
  }

  predicate Due(rows: Queue, sn: string, applied: nat, q: nat) {
    q in rows && q > applied && TargetsSerial(rows[q], sn)
  }

  /** q is what `ORDER BY seq LIMIT 1` returns: the lowest row past the cursor for this serial or the fleet. */
  ghost predicate IsNext(rows: Queue, sn: string, applied: nat, q: nat) {
    Due(rows, sn, applied, q) && forall t :: Due(rows, sn, applied, t) ==> q <= t
  }

  ghost predicate NothingDue(rows: Queue, sn: string, applied: nat) {
    forall t :: !Due(rows, sn, applied, t)
  }

  predicate Pending(r: Row, serial: string, key: string) {
    r.serial == serial && r.key == Some(key) && !r.applied
  }

  /** Enqueue: a keyed command whose twin is still pending inserts nothing. */
  ghost function Enqueue(rows: Queue, q: nat, serial: string, key: Option<string>): Queue {
    if key.Some? && key.value != "" && exists t :: t in rows && Pending(rows[t], serial, key.value) then rows
    else rows[q := Row(serial, if key == Some("") then None else key, false)]
  }

  /** MarkApplied: the ack of one serial flips that serial's own keyed rows, never the fleet's. */
  function MarkApplied(rows: Queue, serial: string, upto: nat): Queue {
    map q | q in rows :: if rows[q].serial == serial && q <= upto && rows[q].key.Some? then rows[q].(applied := true) else rows[q]
  }

  // ---------------------------------------------------------------- the device

  /** What survives in NVS (ack) and in RTC memory (the session). */
  datatype Dev = Dev(ack: nat, magic: bool, counter: U32, secret: nat)

  function Rekeyed(d: Dev, secret: nat): Dev {
    d.(secret := secret, counter := 0, magic := true)
  }

  function Bumped(d: Dev): Dev {
    d.(counter := (d.counter + 1) % 0x1_0000_0000)
  }

  function Dropped(d: Dev): Dev {
    d.(magic := false)
  }

  /** strtoul on a 32-bit long saturates. */
  function StrToUl(seq_: nat): nat {
    if seq_ > U32_MAX then U32_MAX else seq_
  }

  function AckPersisted(d: Dev, q: nat): Dev {
    d.(ack := StrToUl(q))
  }

  datatype Intent = NoIntent | Reboot | Refresh | Sleep

  /** Where c2_poll stands. A number is the index of the request whose answer is awaited. */
  datatype Pc =
    | Idle
    | AwaitChallenge(x: nat)
    | AwaitRekey(x: nat)
    | AwaitPoll(x: nat)
    | Script(q: nat)
    | Ran(q: nat, intent: Intent)
    | Acked(q: nat, intent: Intent)

  // ---------------------------------------------------------------- requests and the backend

  /** A poll carries the one-time password of a (secret, counter) pair; passwords of different pairs differ. */
  datatype Req =
    | Poll(ack: nat, c: U32, secret: nat, wait: bool)
    | Challenge
    | Rekey(nonce: nat, secret: nat)

  datatype Status = Sent | Rejected | Served(q: nat) | Empty | Holding(applied: nat) | Nonce(n: nat) | Installed

  datatype Exchange = Exchange(req: Req, status: Status)

  datatype Srv = Srv(rows: Queue, session: Option<nat>, last: U64, boot: bool, cursor: nat, nonce: Option<nat>)

  datatype Sys = Sys(
    sn: string, dev: Dev, pc: Pc, srv: Srv, ex: seq<Exchange>, nextNonce: nat, nextSecret: nat,
    // history
    ran: seq<nat>, acked: seq<nat>, actioned: seq<nat>, accepted: seq<(nat, U64)>,
    ordered: bool, narrow: bool, wrapped: bool)

  function Start(sn: string, noise: Dev): Sys {
    Sys(sn, Dev(0, false, noise.counter, noise.secret), Idle, Srv(map[], None, 0, false, 0, None), [], 0, 0,
        [], [], [], [], true, true, false)
  }

  datatype Action =
    | StartPoll(wait: bool)
    | PollAborted
    | StartChallenge
    | GotNonce
    | GotInstalled
    | GiveUp
    | GotEmpty
    | GotScript
    | ScriptDone(intent: Intent)
    | PersistAck
    | ActOn(cold: bool)
    | Crash(cold: bool)
    | ServePoll(x: nat, reply: Option<nat>)
    | FailRequest(x: nat)
    | ReplayPoll(x: nat)
    | HoldServe(x: nat, q: nat)
    | HoldExpire(x: nat)
    | ServeChallenge(x: nat)
    | ServeRekey(x: nat)
    | ReplayRekey(x: nat)
    | ExpireNonce
    | ForgePoll(ack: nat, c: U32, secret: nat)
    | Submit(q: nat, serial: string, key: Option<string>)
    | OtherAck(serial: string, upto: nat)

  function Check(srv: Srv, r: Req): Session.Verdict
    requires r.Poll?
  {
    Session.ValidateSession(Session.WINDOW_FAR, srv.session, srv.last, srv.boot, r.c, (r.secret, r.c as U64), (k: nat, c: U64) => (k, c))
  }

  /** What an authentic poll does before anything is served: counter, cursor, dedup release. */
  function Admit(s: Sys, r: Req): Sys
    requires r.Poll? && Check(s.srv, r).ok
  {
    var cursor := if r.ack > s.srv.cursor then r.ack else s.srv.cursor;
    s.(srv := s.srv.(last := Check(s.srv, r).newCounter, boot := true, cursor := cursor, rows := MarkApplied(s.srv.rows, s.sn, cursor)),
       accepted := s.accepted + [(r.secret, Check(s.srv, r).newCounter)])
  }

  function Install(s: Sys, r: Req): Sys
    requires r.Rekey?
  {
    s.(srv := s.srv.(session := Some(r.secret), last := 0, boot := false, nonce := None))
  }

  function Answer(s: Sys, x: nat, st: Status): Sys
    requires x < |s.ex|
  {
    s.(ex := s.ex[x := s.ex[x].(status := st)])
  }

  function Send(s: Sys, r: Req): Sys {
    s.(ex := s.ex + [Exchange(r, Sent)])
  }

  predicate IsSent(s: Sys, x: nat) {
    x < |s.ex| && s.ex[x].status == Sent
  }

  predicate IsAnswered(s: Sys, x: nat) {
    x < |s.ex| && s.ex[x].status != Sent
  }

  predicate ByDevice(a: Action) {
    a.StartPoll? || a.PollAborted? || a.StartChallenge? || a.GotNonce? || a.GotInstalled? || a.GiveUp? || a.GotEmpty?
    || a.GotScript? || a.ScriptDone? || a.PersistAck? || a.ActOn? || a.Crash?
  }

  predicate ByPolls(a: Action) {
    a.ServePoll? || a.FailRequest? || a.ReplayPoll? || a.HoldServe? || a.HoldExpire? || a.ForgePoll?
  }

  predicate ByOperator(a: Action) {
    a.Submit? || a.OtherAck?
  }

  predicate ByRekeys(a: Action) {
    a.ServeChallenge? || a.ServeRekey? || a.ReplayRekey? || a.ExpireNonce?
  }

  /** What the device does; a restart may lose the session. */
  ghost predicate DeviceEnabled(s: Sys, a: Action)
    requires ByDevice(a)
  {
    match a
    case StartPoll(_) => s.pc.Idle? && s.dev.magic
    case PollAborted => s.pc.Idle? && s.dev.magic
    case StartChallenge => s.pc.Idle? && !s.dev.magic
    case GotNonce => s.pc.AwaitChallenge? && s.pc.x < |s.ex| && s.ex[s.pc.x].status.Nonce?
    case GotInstalled => s.pc.AwaitRekey? && s.pc.x < |s.ex| && s.ex[s.pc.x].status.Installed? && s.ex[s.pc.x].req.Rekey?
    case GiveUp => s.pc.AwaitChallenge? || s.pc.AwaitRekey? || s.pc.AwaitPoll?
    case GotEmpty => s.pc.AwaitPoll? && s.pc.x < |s.ex| && s.ex[s.pc.x].status.Empty?
    case GotScript => s.pc.AwaitPoll? && s.pc.x < |s.ex| && s.ex[s.pc.x].status.Served?
    case ScriptDone(_) => s.pc.Script?
    case PersistAck => s.pc.Ran?
    case ActOn(_) => s.pc.Acked?
    case Crash(_) => true
  }

  ghost function DeviceEffect(s: Sys, a: Action): Sys
    requires ByDevice(a) && DeviceEnabled(s, a)
  {
    match a
    case StartPoll(wait) =>
      var d := Bumped(s.dev);
      Send(s, Poll(d.ack, d.counter, d.secret, wait)).(dev := d, pc := AwaitPoll(|s.ex|), wrapped := s.wrapped || d.counter == 0)
    case PollAborted => s.(dev := Bumped(s.dev), wrapped := s.wrapped || Bumped(s.dev).counter == 0)
    case StartChallenge => Send(s, Challenge).(pc := AwaitChallenge(|s.ex|))
    case GotNonce =>
      Send(s, Rekey(s.ex[s.pc.x].status.n, s.nextSecret)).(pc := AwaitRekey(|s.ex|), nextSecret := s.nextSecret + 1)
    case GotInstalled => s.(dev := Rekeyed(s.dev, s.ex[s.pc.x].req.secret), pc := Idle)
    case GiveUp => s.(dev := if s.pc.AwaitPoll? then Dropped(s.dev) else s.dev, pc := Idle)
    case GotEmpty => s.(pc := Idle)
    case GotScript => s.(pc := Script(s.ex[s.pc.x].status.q), ran := s.ran + [s.ex[s.pc.x].status.q])
    case ScriptDone(intent) => s.(pc := Ran(s.pc.q, intent))
    case PersistAck => s.(dev := AckPersisted(s.dev, s.pc.q), pc := Acked(s.pc.q, s.pc.intent), acked := s.acked + [s.pc.q])
    case ActOn(cold) =>
      s.(actioned := if s.pc.intent == NoIntent then s.actioned else s.actioned + [s.pc.q],
         dev := if s.pc.intent == Reboot && cold then Dropped(s.dev) else s.dev, pc := Idle)
    case Crash(cold) => s.(dev := if cold then Dropped(s.dev) else s.dev, pc := Idle)
  }

  /** How the backend meets polls. */
  ghost predicate PollEnabled(s: Sys, a: Action)
    requires ByPolls(a)
  {
    match a
    case ServePoll(x, reply) =>
      IsSent(s, x) && s.ex[x].req.Poll? &&
      (Check(s.srv, s.ex[x].req).ok ==>
        var t := Admit(s, s.ex[x].req);
        if reply.Some? then IsNext(t.srv.rows, s.sn, t.srv.cursor, reply.value) else NothingDue(t.srv.rows, s.sn, t.srv.cursor))
    case FailRequest(x) => IsSent(s, x) && !s.ex[x].req.Challenge?
    case ReplayPoll(x) => IsAnswered(s, x) && s.ex[x].req.Poll? && Check(s.srv, s.ex[x].req).ok
    case HoldServe(x, q) => x < |s.ex| && s.ex[x].status.Holding? && IsNext(s.srv.rows, s.sn, s.ex[x].status.applied, q)
    case HoldExpire(x) => x < |s.ex| && s.ex[x].status.Holding?
    case ForgePoll(_, _, secret) => s.srv.session != Some(secret)
  }

  ghost function PollEffect(s: Sys, a: Action): Sys
    requires ByPolls(a) && PollEnabled(s, a)
  {
    match a
    case ServePoll(x, reply) =>
      if !Check(s.srv, s.ex[x].req).ok then Answer(s, x, Rejected)
      else
        var t := Admit(s, s.ex[x].req);
        Answer(t, x, if reply.Some? then Served(reply.value) else if s.ex[x].req.wait then Holding(t.srv.cursor) else Empty)
    case FailRequest(x) => Answer(s, x, Rejected)
    case ReplayPoll(x) => Admit(s, s.ex[x].req)
    case HoldServe(x, q) => Answer(s, x, Served(q))
    case HoldExpire(x) => Answer(s, x, Empty)
    case ForgePoll(ack, c, secret) =>
      var r := Poll(ack, c, secret, false);
      if Check(s.srv, r).ok then Admit(s, r) else s
  }

  /** How the backend meets the handshake. */
  ghost predicate RekeyEnabled(s: Sys, a: Action)
    requires ByRekeys(a)
  {
    match a
    case ServeChallenge(x) => IsSent(s, x) && s.ex[x].req.Challenge?
    case ServeRekey(x) => IsSent(s, x) && s.ex[x].req.Rekey?
    case ReplayRekey(x) => IsAnswered(s, x) && s.ex[x].req.Rekey? && s.srv.nonce == Some(s.ex[x].req.nonce)
    case ExpireNonce => true
  }

  ghost function RekeyEffect(s: Sys, a: Action): Sys
    requires ByRekeys(a) && RekeyEnabled(s, a)
  {
    match a
    case ServeChallenge(x) =>
      Answer(s, x, Nonce(s.nextNonce)).(srv := s.srv.(nonce := Some(s.nextNonce)), nextNonce := s.nextNonce + 1)
    case ServeRekey(x) =>
      if s.srv.nonce == Some(s.ex[x].req.nonce) then Answer(Install(s, s.ex[x].req), x, Installed) else Answer(s, x, Rejected)
    case ReplayRekey(x) => Install(s, s.ex[x].req)
    case ExpireNonce => s.(srv := s.srv.(nonce := None))
  }

  /** A submission that gives this device a new row. */
  ghost predicate Adds(s: Sys, q: nat, serial: string, key: Option<string>) {
    TargetsSn(serial, s.sn) && q in Enqueue(s.srv.rows, q, serial, key)
  }

  /** The operator, and the other devices. */
  ghost predicate OperatorEnabled(s: Sys, a: Action)
    requires ByOperator(a)
  {
    match a
    case Submit(q, _, _) => q > 0 && q !in s.srv.rows
    case OtherAck(serial, _) => serial != s.sn && serial != FLEET
  }

  ghost function OperatorEffect(s: Sys, a: Action): Sys
    requires ByOperator(a) && OperatorEnabled(s, a)
  {
    match a
    case Submit(q, serial, key) =>
      s.(srv := s.srv.(rows := Enqueue(s.srv.rows, q, serial, key)),
         ordered := s.ordered && (Adds(s, q, serial, key) ==> forall t :: t in s.srv.rows && TargetsSerial(s.srv.rows[t], s.sn) ==> t < q),
         narrow := s.narrow && (Adds(s, q, serial, key) ==> q <= U32_MAX))
    case OtherAck(serial, upto) => s.(srv := s.srv.(rows := MarkApplied(s.srv.rows, serial, upto)))
  }

  ghost predicate Enabled(s: Sys, a: Action) {
    if ByDevice(a) then DeviceEnabled(s, a)
    else if ByPolls(a) then PollEnabled(s, a)
    else if ByRekeys(a) then RekeyEnabled(s, a)
    else OperatorEnabled(s, a)
  }

  ghost function Effect(s: Sys, a: Action): Sys
    requires Enabled(s, a)
  {
    if ByDevice(a) then DeviceEffect(s, a)
    else if ByPolls(a) then PollEffect(s, a)
    else if ByRekeys(a) then RekeyEffect(s, a)
    else OperatorEffect(s, a)
  }

  /** A step that is not enabled changes nothing, so any list of actions is a run. */
  ghost function Step(s: Sys, a: Action): Sys {
    if Enabled(s, a) then Effect(s, a) else s
  }

  ghost function Run(s: Sys, acts: seq<Action>): Sys {
    if acts == [] then s else Step(Run(s, acts[..|acts| - 1]), acts[|acts| - 1])
  }
}
