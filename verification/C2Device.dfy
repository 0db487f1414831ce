/** The device's poll routine on its own state: NVS ack, RTC session, and the intent channel. */
module C2Device {
  import opened Machine
  import opened C2

  const SLEEP_CLAMP_S: nat := 86400

  /** What a script may do that outlives it: ask for a reboot, a refresh or a sleep. */
  datatype Call = CallReboot | CallRefresh | CallSleep(secs: int)

  /** The answer of one poll request, as the HTTP helper reports it. */
  datatype Reply = Failed | NoContent | Body(seq_: Option<nat>, calls: seq<Call>)

  /** Everything outside the routine: configuration, the re-key handshake, the buffers and the answer. */
  datatype Env = Env(
    url: bool, https: bool, serial: bool, bonded: bool,
    rekey: Option<nat>,     // the new session secret, if the handshake ended in 204
    urlFits: bool, allocates: bool, reply: Reply)

  function Clamp(secs: int): nat {
    if secs < 0 then 0 else if secs > SLEEP_CLAMP_S then SLEEP_CLAMP_S else secs
  }

  /** The intent a script leaves: that of its last call. */
  function LastIntent(calls: seq<Call>): (r: (Intent, nat)) {
    if calls == [] then (NoIntent, 0)
    else
      match calls[|calls| - 1]
      case CallReboot => (Reboot, LastIntent(calls[..|calls| - 1]).1)
      case CallRefresh => (Refresh, LastIntent(calls[..|calls| - 1]).1)
      case CallSleep(secs) => (Sleep, Clamp(secs))
  }

  /** Each kind of last call: a script without calls leaves nothing, a reboot or a refresh leaves the sleep time of
      the calls before it, and a sleep is kept between nothing and a day. */
  lemma LastCallDecides(calls: seq<Call>, secs: int)
    ensures LastIntent([]) == (NoIntent, 0)
    ensures LastIntent(calls + [CallReboot]) == (Reboot, LastIntent(calls).1)
    ensures LastIntent(calls + [CallRefresh]) == (Refresh, LastIntent(calls).1)
    ensures var (i, s) := LastIntent(calls + [CallSleep(secs)]);
      && i == Sleep && 0 <= s <= 86400
      && (0 <= secs <= 86400 ==> s == secs) && (secs < 0 ==> s == 0) && (secs > 86400 ==> s == 86400)
  {
    forall last: Call
      ensures (calls + [last])[..|calls|] == calls
    {
    }
  }

  /** The device steps one poll takes, as the step system has them. */
  function AfterPoll(d: Dev, e: Env): Dev {
    if !e.url || !e.https || !e.serial || !e.bonded then d
    else if !d.magic && e.rekey.None? then d
    else
      var d1 := Bumped(if d.magic then d else Rekeyed(d, e.rekey.value));
      if !e.urlFits || !e.allocates then d1
      else match e.reply
        case Failed => Dropped(d1)
        case NoContent => d1
        case Body(q, _) => if q.Some? then AckPersisted(d1, q.value) else d1
  }

  predicate Polls(d: Dev, e: Env) {
    e.url && e.https && e.serial && e.bonded && (d.magic || e.rekey.Some?) && e.urlFits && e.allocates
  }

  class Device {
    var ack: nat
    var magic: bool
    var counter: U32
    var secret: nat
    var intent: Intent
    var sleepS: nat

    ghost function State(): Dev
      reads this
    {
      Dev(ack, magic, counter, secret)
    }

    constructor (noise: Dev)
      ensures State() == noise
    {
      ack, magic, counter, secret := noise.ack, noise.magic, noise.counter, noise.secret;
      intent, sleepS := NoIntent, 0;
    }

    /** Run a script: clear the intent channel, let each call write it, take it. */
    method BerryC2(calls: seq<Call>) returns (i: Intent, s: nat)
      modifies this`intent, this`sleepS
      ensures (i, s) == LastIntent(calls)
    {
      intent, sleepS := NoIntent, 0;
      for k := 0 to |calls|
        invariant (intent, sleepS) == LastIntent(calls[..k])
      {
        assert calls[..k + 1][..k] == calls[..k];
        match calls[k]
        case CallReboot => intent := Reboot;
        case CallRefresh => intent := Refresh;
        case CallSleep(secs) =>
          var v := if secs < 0 then 0 else secs;
          if v > SLEEP_CLAMP_S { v := SLEEP_CLAMP_S; }
          intent := Sleep;
          sleepS := v;
      }
      assert calls[..|calls|] == calls;
      i, s := intent, sleepS;
    }

    /** One poll. The ack is stored before the intent is handed to the caller; any failed request drops the
        session; the first request after a re-key carries counter 1. */
    method C2Poll(e: Env, ghost sent: seq<(nat, U32)>) returns (i: Intent, s: nat, ran: bool, ghost sent': seq<(nat, U32)>)
      modifies this
      ensures State() == AfterPoll(old(State()), e)
      ensures ran <==> Polls(old(State()), e) && e.reply.Body?
      ensures ran && e.reply.seq_.Some? ==> ack == StrToUl(e.reply.seq_.value)
      ensures ran ==> (i, s) == LastIntent(e.reply.calls)
      ensures !ran ==> i == NoIntent && ack == old(ack)
      ensures Polls(old(State()), e) && e.reply.Failed? ==> !magic
      ensures sent' == if Polls(old(State()), e) then sent + [(secret, counter)] else sent
      ensures Polls(old(State()), e) && !old(magic) ==> sent' == sent + [(e.rekey.value, 1)]
    {
      i, s, ran, sent' := NoIntent, 0, false, sent;
      if !e.url { return; }
      if !e.https { return; }
      if !e.serial { return; }
      if !e.bonded { return; }
      if !magic {
        if e.rekey.None? { return; }
        secret := e.rekey.value;
        counter := 0;
        magic := true;
      }
      counter := (counter + 1) % 0x1_0000_0000;
      if !e.urlFits { return; }
      if !e.allocates { return; }
      sent' := sent + [(secret, counter)];
      match e.reply {
        case Failed => magic := false;
        case NoContent =>
        case Body(q, calls) =>
          i, s := BerryC2(calls);
          ran := true;
          if q.Some? {
            ack := if q.value > U32_MAX then U32_MAX else q.value;
          }
      }
    }
  }
}
