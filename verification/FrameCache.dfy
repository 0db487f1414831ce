/** The render path's caches: a hot frame per (serial, function), a shared frame per (function, version), and a
    durable last-good frame per (serial, function). */
module FrameCache {
  import opened Machine

  type Frame = seq<U8>

  /** One version of a function; an update makes a new version, so these are fixed for the version. */
  datatype Fn = Fn(id: nat, version: nat, ttl: real, invariant_: bool)   // ttl: the configured seconds, or the default

  datatype Hot = Hot(version: nat, packed: Frame, renderedAt: real)

  datatype Shared = Shared(packed: Frame, renderedAt: real)

  /** A successful render, in the history. */
  datatype Render = Render(fnID: nat, version: nat, serial: string, packed: Frame, at: real)

  datatype State = State(
    hot: map<(string, nat), Hot>, shared: map<(nat, nat), Shared>, good: map<(string, nat), Frame>, renders: seq<Render>)

  datatype Status = Ok | Stale | Error

  /** What the outside does during one request: the render's outcome and whether the two database calls work. */
  datatype Env = Env(render: Option<Frame>, putWorks: bool, getWorks: bool)

  /** The clock readings of one request: at the age check, at the stamp of a seeded entry, when the render is done,
      and at the stamps of the hot and the shared entry. */
  datatype Clock = Clock(check: real, seeded: real, done: real, hot: real, shared: real)

  /** Time goes on, and at most d passes between an age check or a finished render and the stamps that follow it. */
  predicate Prompt(c: Clock, d: real) {
    c.check <= c.seeded <= c.check + d && c.check <= c.done <= c.hot <= c.shared <= c.done + d
  }

  /** All readings of one moment. */
  function Instant(t: real): Clock {
    Clock(t, t, t, t, t)
  }

  const ERROR_FRAME: Frame := []

  // ---------------------------------------------------------------- one request, one fan-out item

  predicate HotHit(s: State, fn: Fn, serial: string, now: real) {
    (serial, fn.id) in s.hot && s.hot[(serial, fn.id)].version == fn.version && now - s.hot[(serial, fn.id)].renderedAt < fn.ttl
  }

  predicate SharedHit(s: State, fn: Fn, now: real) {
    fn.invariant_ && (fn.id, fn.version) in s.shared && now - s.shared[(fn.id, fn.version)].renderedAt < fn.ttl
  }

  function PutHot(s: State, fn: Fn, serial: string, packed: Frame, now: real): State {
    s.(hot := s.hot[(serial, fn.id) := Hot(fn.version, packed, now)])
  }

  function PutShared(s: State, fn: Fn, packed: Frame, now: real): State {
    if fn.invariant_ then s.(shared := s.shared[(fn.id, fn.version) := Shared(packed, now)]) else s
  }

  function PutGood(s: State, fn: Fn, serial: string, packed: Frame, works: bool): State {
    if works then s.(good := s.good[(serial, fn.id) := packed]) else s
  }

  function Log(s: State, fn: Fn, serial: string, packed: Frame, now: real): State {
    s.(renders := s.renders + [Render(fn.id, fn.version, serial, packed, now)])
  }

  /** buildFrame: hot cache, shared cache, render, and the three fallbacks. */
  function Build(s: State, fn: Fn, serial: string, force: bool, clk: Clock, env: Env): (State, Frame, Status) {
    if !force && HotHit(s, fn, serial, clk.check) then (s, s.hot[(serial, fn.id)].packed, Ok)
    else if !force && SharedHit(s, fn, clk.check) then
      var p := s.shared[(fn.id, fn.version)].packed;
      (PutHot(s, fn, serial, p, clk.seeded), p, Ok)
    else if env.render.Some? then
      var p := env.render.value;
      (PutGood(PutShared(PutHot(Log(s, fn, serial, p, clk.done), fn, serial, p, clk.hot), fn, p, clk.shared), fn, serial, p, env.putWorks), p, Ok)
    else if (serial, fn.id) in s.hot then (s, s.hot[(serial, fn.id)].packed, Stale)
    else if env.getWorks && (serial, fn.id) in s.good then (s, s.good[(serial, fn.id)], Stale)
    else (s, ERROR_FRAME, Error)
  }

  /** One serial of a fan-out: reuse the shared frame or render, then write last-good before the caches. */
  function FanItem(s: State, fn: Fn, serial: string, clk: Clock, env: Env): (State, bool) {
    if SharedHit(s, fn, clk.check) then
      var p := s.shared[(fn.id, fn.version)].packed;
      if env.putWorks then (PutHot(PutGood(s, fn, serial, p, true), fn, serial, p, clk.seeded), true) else (s, false)
    else if env.render.Some? then
      var p := env.render.value;
      var t := Log(s, fn, serial, p, clk.done);
      if env.putWorks then
        (PutShared(PutHot(PutGood(t, fn, serial, p, true), fn, serial, p, clk.hot), fn, p, clk.shared), true)
      else (t, false)
    else (s, false)
  }

  // ---------------------------------------------------------------- provenance

  type Versions = map<(nat, nat), Fn>

  ghost predicate Known(fns: Versions, fn: Fn) {
    (fn.id, fn.version) in fns && fns[(fn.id, fn.version)] == fn && fn.ttl > 0.0
  }

  /** r is a render of this function at this version, for this serial or, if the version is serial-invariant,
      for any. */
  predicate RenderOf(r: Render, fns: Versions, id: nat, version: nat, serial: string, packed: Frame) {
    && r.fnID == id && r.version == version && r.packed == packed
    && (r.serial == serial || ((id, version) in fns && fns[(id, version)].invariant_))
  }

  /** A hot entry was stamped within d of its render, or was seeded from a shared frame that was still live. */
  ghost predicate HotTraced(s: State, fns: Versions, d: real, serial: string, id: nat, e: Hot) {
    exists i :: 0 <= i < |s.renders| && RenderOf(s.renders[i], fns, id, e.version, serial, e.packed)
      && (e.renderedAt - s.renders[i].at <= d
          || ((id, e.version) in fns && fns[(id, e.version)].invariant_
              && e.renderedAt - s.renders[i].at < fns[(id, e.version)].ttl + 2.0 * d))
  }

  ghost predicate SharedTraced(s: State, fns: Versions, d: real, id: nat, version: nat, e: Shared) {
    && (id, version) in fns && fns[(id, version)].invariant_
    && exists i :: 0 <= i < |s.renders| && s.renders[i].fnID == id && s.renders[i].version == version
         && s.renders[i].packed == e.packed && e.renderedAt - s.renders[i].at <= d
  }

  ghost predicate GoodTraced(s: State, fns: Versions, serial: string, id: nat, packed: Frame) {
    exists i :: 0 <= i < |s.renders| && RenderOf(s.renders[i], fns, id, s.renders[i].version, serial, packed)
  }

  ghost predicate Traced(s: State, fns: Versions, d: real) {
    && (forall k :: k in s.hot ==> HotTraced(s, fns, d, k.0, k.1, s.hot[k]))
    && (forall k :: k in s.shared ==> SharedTraced(s, fns, d, k.0, k.1, s.shared[k]))
    && (forall k :: k in s.good ==> GoodTraced(s, fns, k.0, k.1, s.good[k]))
  }

  lemma LogKeepsTraced(s: State, fns: Versions, d: real, fn: Fn, serial: string, packed: Frame, done: real)
    requires Traced(s, fns, d)
    ensures Traced(Log(s, fn, serial, packed, done), fns, d)
  {
    var t := Log(s, fn, serial, packed, done);
    assert forall i :: 0 <= i < |s.renders| ==> t.renders[i] == s.renders[i];
    forall k | k in t.hot
      ensures HotTraced(t, fns, d, k.0, k.1, t.hot[k])
    {
      assert HotTraced(s, fns, d, k.0, k.1, s.hot[k]);
    }
    forall k | k in t.shared
      ensures SharedTraced(t, fns, d, k.0, k.1, t.shared[k])
    {
      assert SharedTraced(s, fns, d, k.0, k.1, s.shared[k]);
    }
    forall k | k in t.good
      ensures GoodTraced(t, fns, k.0, k.1, t.good[k])
    {
      assert GoodTraced(s, fns, k.0, k.1, s.good[k]);
    }
  }

  /** Being traced depends on the history alone. */
  lemma SameRenders(s: State, t: State, fns: Versions, d: real)
    requires s.renders == t.renders
    ensures forall serial, id, e :: HotTraced(s, fns, d, serial, id, e) ==> HotTraced(t, fns, d, serial, id, e)
    ensures forall id, version, e :: SharedTraced(s, fns, d, id, version, e) ==> SharedTraced(t, fns, d, id, version, e)
    ensures forall serial, id, p :: GoodTraced(s, fns, serial, id, p) ==> GoodTraced(t, fns, serial, id, p)
  {
  }

  lemma PutHotKeepsTraced(s: State, fns: Versions, d: real, fn: Fn, serial: string, packed: Frame, stamp: real)
    requires Traced(s, fns, d) && HotTraced(s, fns, d, serial, fn.id, Hot(fn.version, packed, stamp))
    ensures Traced(PutHot(s, fn, serial, packed, stamp), fns, d)
  {
    hide HotTraced, SharedTraced, GoodTraced;
    SameRenders(s, PutHot(s, fn, serial, packed, stamp), fns, d);
  }

  lemma PutSharedKeepsTraced(s: State, fns: Versions, d: real, fn: Fn, packed: Frame, stamp: real)
    requires Traced(s, fns, d) && (fn.invariant_ ==> SharedTraced(s, fns, d, fn.id, fn.version, Shared(packed, stamp)))
    ensures Traced(PutShared(s, fn, packed, stamp), fns, d)
  {
    hide HotTraced, SharedTraced, GoodTraced;
    SameRenders(s, PutShared(s, fn, packed, stamp), fns, d);
  }

  lemma PutGoodKeepsTraced(s: State, fns: Versions, d: real, fn: Fn, serial: string, packed: Frame, works: bool)
    requires Traced(s, fns, d) && GoodTraced(s, fns, serial, fn.id, packed)
    ensures Traced(PutGood(s, fn, serial, packed, works), fns, d)
  {
    hide HotTraced, SharedTraced, GoodTraced;
    SameRenders(s, PutGood(s, fn, serial, packed, works), fns, d);
  }

  /** What a fresh render may be stored as. */
  lemma RenderIsTraced(s: State, fns: Versions, d: real, fn: Fn, serial: string, packed: Frame, clk: Clock)
    requires Known(fns, fn) && Prompt(clk, d)
    ensures var t := Log(s, fn, serial, packed, clk.done);
      && HotTraced(t, fns, d, serial, fn.id, Hot(fn.version, packed, clk.hot))
      && (fn.invariant_ ==> SharedTraced(t, fns, d, fn.id, fn.version, Shared(packed, clk.shared)))
      && GoodTraced(t, fns, serial, fn.id, packed)
  {
    var t := Log(s, fn, serial, packed, clk.done);
    assert t.renders[|s.renders|] == Render(fn.id, fn.version, serial, packed, clk.done);
  }

  /** What a live shared frame may be stored as, for any serial. */
  lemma SharedIsTraced(s: State, fns: Versions, d: real, fn: Fn, serial: string, clk: Clock)
    requires Traced(s, fns, d) && Known(fns, fn) && SharedHit(s, fn, clk.check) && Prompt(clk, d)
    ensures HotTraced(s, fns, d, serial, fn.id, Hot(fn.version, s.shared[(fn.id, fn.version)].packed, clk.seeded))
    ensures GoodTraced(s, fns, serial, fn.id, s.shared[(fn.id, fn.version)].packed)
  {
    assert SharedTraced(s, fns, d, fn.id, fn.version, s.shared[(fn.id, fn.version)]);
  }

  lemma BuildKeepsTraced(s: State, fns: Versions, d: real, fn: Fn, serial: string, force: bool, clk: Clock, env: Env)
    requires Traced(s, fns, d) && Known(fns, fn) && Prompt(clk, d)
    ensures Traced(Build(s, fn, serial, force, clk, env).0, fns, d)
  {
    hide HotTraced, SharedTraced, GoodTraced, Traced;
    if !force && HotHit(s, fn, serial, clk.check) {
    } else if !force && SharedHit(s, fn, clk.check) {
      SharedIsTraced(s, fns, d, fn, serial, clk);
      PutHotKeepsTraced(s, fns, d, fn, serial, s.shared[(fn.id, fn.version)].packed, clk.seeded);
    } else if env.render.Some? {
      var p := env.render.value;
      var t := Log(s, fn, serial, p, clk.done);
      var u := PutHot(t, fn, serial, p, clk.hot);
      var v := PutShared(u, fn, p, clk.shared);
      LogKeepsTraced(s, fns, d, fn, serial, p, clk.done);
      RenderIsTraced(s, fns, d, fn, serial, p, clk);
      SameRenders(t, u, fns, d);
      SameRenders(t, v, fns, d);
      PutHotKeepsTraced(t, fns, d, fn, serial, p, clk.hot);
      PutSharedKeepsTraced(u, fns, d, fn, p, clk.shared);
      PutGoodKeepsTraced(v, fns, d, fn, serial, p, env.putWorks);
    }
  }

  lemma FanItemKeepsTraced(s: State, fns: Versions, d: real, fn: Fn, serial: string, clk: Clock, env: Env)
    requires Traced(s, fns, d) && Known(fns, fn) && Prompt(clk, d)
    ensures Traced(FanItem(s, fn, serial, clk, env).0, fns, d)
  {
    hide HotTraced, SharedTraced, GoodTraced, Traced;
    if SharedHit(s, fn, clk.check) {
      var p := s.shared[(fn.id, fn.version)].packed;
      SharedIsTraced(s, fns, d, fn, serial, clk);
      PutGoodKeepsTraced(s, fns, d, fn, serial, p, true);
      SameRenders(s, PutGood(s, fn, serial, p, true), fns, d);
      PutHotKeepsTraced(PutGood(s, fn, serial, p, true), fns, d, fn, serial, p, clk.seeded);
    } else if env.render.Some? {
      var p := env.render.value;
      var t := Log(s, fn, serial, p, clk.done);
      var u := PutGood(t, fn, serial, p, true);
      var v := PutHot(u, fn, serial, p, clk.hot);
      LogKeepsTraced(s, fns, d, fn, serial, p, clk.done);
      RenderIsTraced(s, fns, d, fn, serial, p, clk);
      SameRenders(t, u, fns, d);
      SameRenders(t, v, fns, d);
      PutGoodKeepsTraced(t, fns, d, fn, serial, p, true);
      PutHotKeepsTraced(u, fns, d, fn, serial, p, clk.hot);
      PutSharedKeepsTraced(v, fns, d, fn, p, clk.shared);
    }
  }

  lemma RestartKeepsTraced(s: State, fns: Versions, d: real)
    requires Traced(s, fns, d)
    ensures Traced(Restarted(s), fns, d)
  {
    hide GoodTraced;
    SameRenders(s, Restarted(s), fns, d);
  }

  // ---------------------------------------------------------------- whole runs

  datatype Call =
    | Request(fn: Fn, serial: string, force: bool, clk: Clock, env: Env)
    | Fan(fn: Fn, serial: string, clk: Clock, env: Env)
    | Restart   // the caches live in memory, last-good in the database

  function Restarted(s: State): State {
    s.(hot := map[], shared := map[])
  }

  function Next(s: State, c: Call): State {
    match c
    case Request(fn, serial, force, clk, env) => Build(s, fn, serial, force, clk, env).0
    case Fan(fn, serial, clk, env) => FanItem(s, fn, serial, clk, env).0
    case Restart => Restarted(s)
  }

  ghost function Run(calls: seq<Call>): State {
    if calls == [] then State(map[], map[], map[], []) else Next(Run(calls[..|calls| - 1]), calls[|calls| - 1])
  }

  /** Every call is for a known version, with at most d between its readings. */
  ghost predicate Admissible(fns: Versions, d: real, calls: seq<Call>) {
    forall i :: 0 <= i < |calls| && !calls[i].Restart? ==> Known(fns, calls[i].fn) && Prompt(calls[i].clk, d)
  }

  lemma {:induction false} RunTraced(fns: Versions, d: real, calls: seq<Call>)
    requires Admissible(fns, d, calls)
    ensures Traced(Run(calls), fns, d)
  {
    if calls != [] {
      hide Traced, Build, FanItem;
      var n := |calls| - 1;
      RunTraced(fns, d, calls[..n]);
      match calls[n]
      case Request(fn, serial, force, clk, env) => BuildKeepsTraced(Run(calls[..n]), fns, d, fn, serial, force, clk, env);
      case Fan(fn, serial, clk, env) => FanItemKeepsTraced(Run(calls[..n]), fns, d, fn, serial, clk, env);
      case Restart => RestartKeepsTraced(Run(calls[..n]), fns, d);
    } else {
      assert Traced(Run(calls), fns, d);
    }
  }

  /** How old, at the age check, a frame served as "ok" is at most, if it was not rendered for this request. */
  function AgeBound(fn: Fn, d: real): real {
    if fn.invariant_ then 2.0 * fn.ttl + 2.0 * d else fn.ttl + d
  }

  /** After any run, a frame served as "ok" came from a successful render of that function at that version, for that
      serial unless the version is serial-invariant: the one just made, or one younger than the time to live plus
      the delay between two readings, or twice that in the invariant case. */
  lemma OkFramesAreTraced(fns: Versions, d: real, calls: seq<Call>, fn: Fn, serial: string, force: bool, clk: Clock, env: Env) returns (i: nat)
    requires Admissible(fns, d, calls) && Known(fns, fn) && Prompt(clk, d) && Build(Run(calls), fn, serial, force, clk, env).2.Ok?
    ensures var (t, packed, st) := Build(Run(calls), fn, serial, force, clk, env);
      && i < |t.renders|
      && t.renders[i].fnID == fn.id && t.renders[i].version == fn.version && t.renders[i].packed == packed
      && (fn.invariant_ || t.renders[i].serial == serial)
      && (i == |Run(calls).renders| || clk.check - t.renders[i].at < AgeBound(fn, d))
  {
    RunTraced(fns, d, calls);
    i := OkIsTraced(Run(calls), fns, d, fn, serial, force, clk, env);
  }

  lemma OkIsTraced(s: State, fns: Versions, d: real, fn: Fn, serial: string, force: bool, clk: Clock, env: Env) returns (i: nat)
    requires Traced(s, fns, d) && Known(fns, fn) && Prompt(clk, d) && Build(s, fn, serial, force, clk, env).2.Ok?
    ensures var (t, packed, st) := Build(s, fn, serial, force, clk, env);
      && i < |t.renders|
      && t.renders[i].fnID == fn.id && t.renders[i].version == fn.version && t.renders[i].packed == packed
      && (fn.invariant_ || t.renders[i].serial == serial)
      && (i == |s.renders| || clk.check - t.renders[i].at < AgeBound(fn, d))
  {
    if !force && HotHit(s, fn, serial, clk.check) {
      var e := s.hot[(serial, fn.id)];
      assert HotTraced(s, fns, d, serial, fn.id, e);
      i :| 0 <= i < |s.renders| && RenderOf(s.renders[i], fns, fn.id, e.version, serial, e.packed)
        && (e.renderedAt - s.renders[i].at <= d || (fn.invariant_ && e.renderedAt - s.renders[i].at < fn.ttl + 2.0 * d));
    } else if !force && SharedHit(s, fn, clk.check) {
      var e := s.shared[(fn.id, fn.version)];
      assert SharedTraced(s, fns, d, fn.id, fn.version, e);
      i :| 0 <= i < |s.renders| && s.renders[i].fnID == fn.id && s.renders[i].version == fn.version
        && s.renders[i].packed == e.packed && e.renderedAt - s.renders[i].at <= d;
    } else {
      i := |s.renders|;
    }
  }

  /** A failed render changes no cache and no last-good frame. */
  lemma FailedRenderChangesNothing(s: State, fn: Fn, serial: string, force: bool, clk: Clock, env: Env)
    requires env.render.None?
    ensures Build(s, fn, serial, force, clk, env).2 != Ok ==> Build(s, fn, serial, force, clk, env).0 == s
    ensures !SharedHit(s, fn, clk.check) ==> FanItem(s, fn, serial, clk, env) == (s, false)
  {
  }

  lemma Portion(age: real, whole: real, part: real) returns (x: real)
    requires 0.0 <= age < whole && 0.0 <= part
    ensures x == age / whole * part && 0.0 <= x <= part && (part > 0.0 ==> x < part)
  {
    var q := age / whole;
    assert q * whole == age;
    assert 0.0 <= q < 1.0;
    x := q * part;
    assert (1.0 - q) * part >= 0.0 && (part > 0.0 ==> (1.0 - q) * part > 0.0);
    assert (1.0 - q) * part == part - x;
  }

  /** The bound of one time to live does not hold for a serial-invariant function: seeding a serial's hot entry
      from the shared frame restarts its clock, so a frame of every age below the bound is served. */
  lemma SeedingRestartsClock(fn: Fn, packed: Frame, d: real, age: real, a: string, b: string) returns (calls: seq<Call>)
    requires fn.invariant_ && fn.ttl > 0.0 && d >= 0.0 && a != b && fn.ttl + d <= age < 2.0 * fn.ttl + 2.0 * d
    ensures Admissible(map[(fn.id, fn.version) := fn], d, calls)
    ensures var (t, p, st) := Build(Run(calls), fn, b, false, Instant(age), Env(None, true, true));
      st == Ok && p == packed && t.renders == Run(calls).renders == [Render(fn.id, fn.version, a, packed, 0.0)]
  {
    var whole := fn.ttl + d;
    var u := Portion(age / 2.0, whole, fn.ttl);
    var w := Portion(age / 2.0, whole, d);
    assert age / 2.0 / whole * fn.ttl + age / 2.0 / whole * d == age / 2.0 / whole * whole;
    assert u + w == age / 2.0;
    var first := Request(fn, a, false, Clock(0.0, 0.0, 0.0, 0.0, w), Env(Some(packed), true, true));
    var second := Request(fn, b, false, Clock(w + u, w + u + w, w + u, w + u, w + u), Env(None, true, true));
    calls := [first, second];
    SeededRun(fn, packed, first, second);
  }

  lemma SeededRun(fn: Fn, packed: Frame, first: Call, second: Call)
    requires fn.invariant_ && first.Request? && second.Request? && first.fn == fn == second.fn && first.serial != second.serial
    requires !first.force && !second.force && first.env == Env(Some(packed), true, true) && second.env.render.None?
    requires second.clk.check - first.clk.shared < fn.ttl
    ensures var t := Run([first, second]);
      && t.renders == [Render(fn.id, fn.version, first.serial, packed, first.clk.done)]
      && (second.serial, fn.id) in t.hot && t.hot[(second.serial, fn.id)] == Hot(fn.version, packed, second.clk.seeded)
  {
    assert [first, second][..1] == [first] && [first][..0] == [];
    assert Run([]) == State(map[], map[], map[], []);
    var s1 := Run([first]);
    assert s1 == Build(State(map[], map[], map[], []), fn, first.serial, false, first.clk, first.env).0;
    assert s1.shared[(fn.id, fn.version)] == Shared(packed, first.clk.shared) && (second.serial, fn.id) !in s1.hot;
    assert Run([first, second]) == Build(s1, fn, second.serial, false, second.clk, second.env).0;
  }

  /** In every run with at most d between readings, every frame served as "ok" from a cache is of a render younger
      than the time to live plus d. */
  ghost predicate FreshWithin(fn: Fn, d: real) {
    forall fns: Versions, calls: seq<Call>, serial: string, clk: Clock, env: Env ::
      Admissible(fns, d, calls) && Known(fns, fn) && Prompt(clk, d) ==> FreshServed(calls, fn, serial, clk, env, d)
  }

  ghost predicate FreshServed(calls: seq<Call>, fn: Fn, serial: string, clk: Clock, env: Env, d: real) {
    var (t, packed, st) := Build(Run(calls), fn, serial, false, clk, env);
    st.Ok? ==> exists i :: 0 <= i < |t.renders| && IsFresh(t.renders[i], fn, packed, clk.check, d, i == |Run(calls).renders|)
  }

  /** The render is of these bytes, by this version, and was made just now or is younger than the time to live plus d. */
  predicate IsFresh(r: Render, fn: Fn, packed: Frame, check: real, d: real, justNow: bool) {
    r.fnID == fn.id && r.version == fn.version && r.packed == packed && (justNow || check - r.at < fn.ttl + d)
  }

  /** That promise is kept exactly if the version is not serial-invariant. */
  lemma FreshIffNotInvariant(fn: Fn, d: real)
    requires fn.ttl > 0.0 && d >= 0.0
    ensures FreshWithin(fn, d) <==> !fn.invariant_
  {
    if fn.invariant_ {
      var calls := SeedingRestartsClock(fn, [], d, fn.ttl + d, "a", "b");
      var fns := map[(fn.id, fn.version) := fn];
      var clk, env := Instant(fn.ttl + d), Env(None, true, true);
      assert Admissible(fns, d, calls) && Known(fns, fn) && Prompt(clk, d);
      assert !FreshServed(calls, fn, "b", clk, env, d);
    } else {
      forall fns: Versions, calls: seq<Call>, serial: string, clk: Clock, env: Env |
          Admissible(fns, d, calls) && Known(fns, fn) && Prompt(clk, d)
        ensures FreshServed(calls, fn, serial, clk, env, d)
      {
        if Build(Run(calls), fn, serial, false, clk, env).2.Ok? {
          var i := OkFramesAreTraced(fns, d, calls, fn, serial, false, clk, env);
        }
      }
    }
  }

  // ---------------------------------------------------------------- what each request is answered

  predicate Hit(s: State, fn: Fn, serial: string, now: real) {
    HotHit(s, fn, serial, now) || SharedHit(s, fn, now)
  }

  /** The last frame that was delivered to the pair since the last restart: one served as "ok", or one of a
      fan-out that was stored. */
  ghost function Delivered(calls: seq<Call>, serial: string, id: nat): Option<Frame> {
    if calls == [] then None
    else
      var before, s := Delivered(calls[..|calls| - 1], serial, id), Run(calls[..|calls| - 1]);
      match calls[|calls| - 1]
      case Request(fn, to, force, clk, env) =>
        if to == serial && fn.id == id && Build(s, fn, to, force, clk, env).2.Ok? then Some(Build(s, fn, to, force, clk, env).1) else before
      case Fan(fn, to, clk, env) => if to == serial && fn.id == id && env.putWorks then Or(FanFrame(s, fn, clk, env), before) else before
      case Restart => None
  }

  /** The last frame that was stored as last-good for the pair: one rendered for it, or one of a fan-out. */
  ghost function Stored(calls: seq<Call>, serial: string, id: nat): Option<Frame> {
    if calls == [] then None
    else
      var before, s := Stored(calls[..|calls| - 1], serial, id), Run(calls[..|calls| - 1]);
      match calls[|calls| - 1]
      case Request(fn, to, force, clk, env) =>
        if to == serial && fn.id == id && env.putWorks && (force || !Hit(s, fn, to, clk.check)) then Or(env.render, before) else before
      case Fan(fn, to, clk, env) => if to == serial && fn.id == id && env.putWorks then Or(FanFrame(s, fn, clk, env), before) else before
      case Restart => before
  }

  function Or(a: Option<Frame>, b: Option<Frame>): Option<Frame> {
    if a.Some? then a else b
  }

  /** The frame that a fan-out has for a serial: the shared one while it lives, else a new render. */
  function FanFrame(s: State, fn: Fn, clk: Clock, env: Env): Option<Frame> {
    if SharedHit(s, fn, clk.check) then Some(s.shared[(fn.id, fn.version)].packed) else env.render
  }

  function HotOf(s: State, serial: string, id: nat): Option<Frame> {
    if (serial, id) in s.hot then Some(s.hot[(serial, id)].packed) else None
  }

  function GoodOf(s: State, serial: string, id: nat): Option<Frame> {
    if (serial, id) in s.good then Some(s.good[(serial, id)]) else None
  }

  lemma FanItemDelivers(s: State, fn: Fn, to: string, clk: Clock, env: Env, serial: string, id: nat)
    ensures var (t, done) := FanItem(s, fn, to, clk, env);
      var mine := to == serial && fn.id == id && env.putWorks;
      && (done <==> env.putWorks && FanFrame(s, fn, clk, env).Some?)
      && HotOf(t, serial, id) == (if mine then Or(FanFrame(s, fn, clk, env), HotOf(s, serial, id)) else HotOf(s, serial, id))
      && GoodOf(t, serial, id) == (if mine then Or(FanFrame(s, fn, clk, env), GoodOf(s, serial, id)) else GoodOf(s, serial, id))
  {
  }

  lemma BuildDelivers(s: State, fn: Fn, to: string, force: bool, clk: Clock, env: Env, serial: string, id: nat)
    ensures var (t, packed, st) := Build(s, fn, to, force, clk, env);
      var mine, renders := to == serial && fn.id == id, force || !Hit(s, fn, to, clk.check);
      && HotOf(t, serial, id) == (if mine && st.Ok? then Some(packed) else HotOf(s, serial, id))
      && GoodOf(t, serial, id) == (if mine && env.putWorks && renders then Or(env.render, GoodOf(s, serial, id)) else GoodOf(s, serial, id))
  {
  }

  /** The hot frame of a pair is the last one delivered to it since the restart, its last-good frame the last one
      stored for it. */
  lemma {:induction false} CachesHoldLast(calls: seq<Call>, serial: string, id: nat)
    ensures HotOf(Run(calls), serial, id) == Delivered(calls, serial, id)
    ensures GoodOf(Run(calls), serial, id) == Stored(calls, serial, id)
  {
    if calls != [] {
      hide Build, FanItem, FanFrame, Hit;
      var n := |calls| - 1;
      CachesHoldLast(calls[..n], serial, id);
      match calls[n]
      case Request(fn, to, force, clk, env) => BuildDelivers(Run(calls[..n]), fn, to, force, clk, env, serial, id);
      case Fan(fn, to, clk, env) => FanItemDelivers(Run(calls[..n]), fn, to, clk, env, serial, id);
      case Restart =>
    }
  }

  /** The answer to a request after any run. A hit is served unless a render is forced; otherwise a new render is;
      and if that fails the last frame delivered to this serial is served as stale, after a restart the last one
      stored for it, and the error frame exactly if there is neither. */
  lemma AnswerOf(calls: seq<Call>, fn: Fn, serial: string, force: bool, clk: Clock, env: Env)
    ensures var s := Run(calls);
      var (t, packed, st) := Build(s, fn, serial, force, clk, env);
      if !force && Hit(s, fn, serial, clk.check) then
        st == Ok && t.renders == s.renders
        && Some(packed) == (if HotHit(s, fn, serial, clk.check) then Delivered(calls, serial, fn.id)
                            else Some(s.shared[(fn.id, fn.version)].packed))
      else if env.render.Some? then
        st == Ok && packed == env.render.value
      else
        t == s &&
        match Delivered(calls, serial, fn.id)
        case Some(last) => st == Stale && packed == last
        case None =>
          match (env.getWorks, Stored(calls, serial, fn.id))
          case (true, Some(last)) => st == Stale && packed == last
          case _ => st == Error && packed == ERROR_FRAME
  {
    CachesHoldLast(calls, serial, fn.id);
    hide Run, Delivered, Stored;
  }

  ghost predicate Answered(calls: seq<Call>, n: nat, serial: string, id: nat, st: Status)
    requires n < |calls|
  {
    var c := calls[n];
    c.Request? && c.serial == serial && c.fn.id == id && Build(Run(calls[..n]), c.fn, serial, c.force, c.clk, c.env).2 == st
  }

  lemma {:induction false} DeliveredStays(calls: seq<Call>, n: nat, serial: string, id: nat)
    requires n <= |calls| && Delivered(calls[..n], serial, id).Some? && forall m :: n <= m < |calls| ==> !calls[m].Restart?
    ensures Delivered(calls, serial, id).Some?
  {
    hide Build, Run, FanFrame;
    if n == |calls| {
      assert calls[..n] == calls;
    } else {
      assert calls[..|calls| - 1][..n] == calls[..n];
      DeliveredStays(calls[..|calls| - 1], n, serial, id);
    }
  }

  /** Once a request was answered "ok", no request of that serial and function is answered with the error frame
      before the next restart. */
  lemma NoErrorAfterOk(calls: seq<Call>, n: nat, m: nat, serial: string, id: nat)
    requires n < m < |calls| && Answered(calls, n, serial, id, Ok) && forall k :: n <= k < m ==> !calls[k].Restart?
    ensures !Answered(calls, m, serial, id, Error)
  {
    hide Build, Run;
    assert calls[..m][..n + 1][..n] == calls[..n] && calls[..m][..n + 1][n] == calls[n];
    assert Delivered(calls[..m][..n + 1], serial, id).Some?;
    DeliveredStays(calls[..m], n + 1, serial, id);
    var c := calls[m];
    if c.Request? && c.serial == serial {
      AnswerOf(calls[..m], c.fn, serial, c.force, c.clk, c.env);
    }
  }

  /** A stale frame is a successful render of that function, at some version, for that serial or of a version that
      is serial-invariant. */
  lemma StaleFramesAreTraced(fns: Versions, d: real, calls: seq<Call>, fn: Fn, serial: string, force: bool, clk: Clock, env: Env) returns (i: nat)
    requires Admissible(fns, d, calls) && Build(Run(calls), fn, serial, force, clk, env).2.Stale?
    ensures var s := Run(calls);
      && i < |s.renders| && s.renders[i].fnID == fn.id && s.renders[i].packed == Build(s, fn, serial, force, clk, env).1
      && (s.renders[i].serial == serial
          || ((fn.id, s.renders[i].version) in fns && fns[(fn.id, s.renders[i].version)].invariant_))
  {
    RunTraced(fns, d, calls);
    hide Run;
    var s := Run(calls);
    if (serial, fn.id) in s.hot {
      var e := s.hot[(serial, fn.id)];
      assert HotTraced(s, fns, d, serial, fn.id, e);
      i :| 0 <= i < |s.renders| && RenderOf(s.renders[i], fns, fn.id, e.version, serial, e.packed);
    } else {
      assert GoodTraced(s, fns, serial, fn.id, s.good[(serial, fn.id)]);
      i :| 0 <= i < |s.renders| && RenderOf(s.renders[i], fns, fn.id, s.renders[i].version, serial, s.good[(serial, fn.id)]);
    }
  }

  lemma OthersKeepHot(s: State, c: Call, serial: string, id: nat)
    requires (serial, id) in s.hot && !c.Restart? && !(c.serial == serial && c.fn.id == id)
    ensures (serial, id) in Next(s, c).hot && Next(s, c).hot[(serial, id)] == s.hot[(serial, id)]
  {
    hide HotHit, SharedHit;
    var k := (c.serial, c.fn.id);
    assert k != (serial, id);
  }

  lemma {:induction false} HotStays(calls: seq<Call>, n: nat, serial: string, id: nat)
    requires n <= |calls| && (serial, id) in Run(calls[..n]).hot
    requires forall m :: n <= m < |calls| ==> !calls[m].Restart? && !(calls[m].serial == serial && calls[m].fn.id == id)
    ensures (serial, id) in Run(calls).hot && Run(calls).hot[(serial, id)] == Run(calls[..n]).hot[(serial, id)]
  {
    hide Next;
    if n == |calls| {
      assert calls[..n] == calls;
    } else {
      var before := calls[..|calls| - 1];
      assert before[..n] == calls[..n];
      HotStays(before, n, serial, id);
      OthersKeepHot(Run(before), calls[|calls| - 1], serial, id);
    }
  }

  /** A frame that was rendered for a request is what the next request of that serial for that version is served,
      without a render, as long as the frame is younger than the time to live, nothing forces a render, and the
      process was not restarted. */
  lemma RenderIsServedAgain(calls: seq<Call>, n: nat, clk: Clock, env: Env)
    requires n < |calls| && calls[n].Request? && calls[n].env.render.Some?
    requires calls[n].force || !Hit(Run(calls[..n]), calls[n].fn, calls[n].serial, calls[n].clk.check)
    requires forall m :: n < m < |calls| ==> !calls[m].Restart? && !(calls[m].serial == calls[n].serial && calls[m].fn.id == calls[n].fn.id)
    requires clk.check - calls[n].clk.hot < calls[n].fn.ttl
    ensures Build(Run(calls), calls[n].fn, calls[n].serial, false, clk, env) == (Run(calls), calls[n].env.render.value, Ok)
  {
    var c := calls[n];
    assert calls[..n + 1][..n] == calls[..n] && calls[..n + 1][n] == c;
    var t := Run(calls[..n + 1]);
    assert t == Build(Run(calls[..n]), c.fn, c.serial, c.force, c.clk, c.env).0;
    assert t.hot[(c.serial, c.fn.id)] == Hot(c.fn.version, c.env.render.value, c.clk.hot);
    hide Run;
    HotStays(calls, n + 1, c.serial, c.fn.id);
  }

  /** A render of a serial-invariant version is served to every serial without a fresh frame of its own. */
  lemma RenderIsShared(s: State, fn: Fn, serial: string, force: bool, clk: Clock, env: Env, other: string, later: Clock, envLater: Env)
    requires fn.invariant_ && env.render.Some? && (force || !Hit(s, fn, serial, clk.check))
    requires later.check - clk.shared < fn.ttl
    ensures var t := Build(s, fn, serial, force, clk, env).0;
      var (u, packed, st) := Build(t, fn, other, false, later, envLater);
      st == Ok && u.renders == t.renders && (!HotHit(t, fn, other, later.check) ==> packed == env.render.value)
  {
  }

  // ---------------------------------------------------------------- the supervisor

  class Supervisor {
    var hot: map<(string, nat), Hot>
    var shared: map<(nat, nat), Shared>
    var good: map<(string, nat), Frame>
    ghost var renders: seq<Render>

    ghost function S(): State
      reads this
    {
      State(hot, shared, good, renders)
    }

    /** A process starts with empty caches over whatever last-good frames the database holds. */
    constructor (stored: map<(string, nat), Frame>, ghost past: seq<Render>)
      ensures S() == State(map[], map[], stored, past)
    {
      hot, shared, good, renders := map[], map[], stored, past;
    }

    method BuildFrame(fn: Fn, serial: string, force: bool, clk: Clock, env: Env) returns (packed: Frame, status: Status)
      modifies this
      ensures (S(), packed, status) == Build(old(S()), fn, serial, force, clk, env)
    {
      if !force {
        if (serial, fn.id) in hot {
          var e := hot[(serial, fn.id)];
          if e.version == fn.version && clk.check - e.renderedAt < fn.ttl {
            return e.packed, Ok;
          }
        }
        if fn.invariant_ {
          if (fn.id, fn.version) in shared {
            var e := shared[(fn.id, fn.version)];
            if clk.check - e.renderedAt < fn.ttl {
              hot := hot[(serial, fn.id) := Hot(fn.version, e.packed, clk.seeded)];
              return e.packed, Ok;
            }
          }
        }
      }
      if env.render.Some? {
        packed := env.render.value;
        renders := renders + [Render(fn.id, fn.version, serial, packed, clk.done)];
        hot := hot[(serial, fn.id) := Hot(fn.version, packed, clk.hot)];
        if fn.invariant_ {
          shared := shared[(fn.id, fn.version) := Shared(packed, clk.shared)];
        }
        if env.putWorks {
          good := good[(serial, fn.id) := packed];
        }
        return packed, Ok;
      }
      if (serial, fn.id) in hot {
        return hot[(serial, fn.id)].packed, Stale;
      }
      if env.getWorks && (serial, fn.id) in good {
        return good[(serial, fn.id)], Stale;
      }
      packed, status := ERROR_FRAME, Error;
    }

    /** The fan-out over all bound serials; item i sees the readings clocks[i]. Every serial is counted once, a
        failure keeps the serial's last-good frame, and if the whole fan-out fits in one time to live, a
        serial-invariant function is successfully rendered at most once; renders that fail are not bounded, since
        each failure leaves the next serial to try again. */
    method FanOut(fn: Fn, serials: seq<string>, clocks: seq<Clock>, envs: seq<Env>) returns (ok: nat, failed: nat)
      requires |clocks| == |envs| == |serials| && InOrder(clocks)
      modifies this
      ensures ok == FanOk(old(S()), fn, serials, clocks, envs) && failed == |serials| - ok
      ensures S() == FanAll(old(S()), fn, serials, clocks, envs)
      ensures |renders| >= |old(renders)|
      ensures OneLife(fn, clocks, envs) ==> |renders| <= |old(renders)| + 1
    {
      hide FanItem;
      ok, failed := 0, 0;
      assert serials[..0] == [];
      for i := 0 to |serials|
        invariant ok == FanOk(old(S()), fn, serials[..i], clocks[..i], envs[..i]) && failed == i - ok
        invariant S() == FanAll(old(S()), fn, serials[..i], clocks[..i], envs[..i])
        invariant |renders| >= |old(renders)|
        invariant OneLife(fn, clocks, envs) && |renders| > |old(renders)| ==>
          (fn.id, fn.version) in shared && shared[(fn.id, fn.version)].renderedAt >= clocks[0].check
        invariant OneLife(fn, clocks, envs) ==> |renders| <= |old(renders)| + 1
      {
        assert serials[..i + 1][..i] == serials[..i] && clocks[..i + 1][..i] == clocks[..i] && envs[..i + 1][..i] == envs[..i];
        ItemRenders(S(), fn, serials[i], clocks[i], envs[i]);
        var done := FanOne(fn, serials[i], clocks[i], envs[i]);
        if done {
          ok := ok + 1;
        } else {
          failed := failed + 1;
        }
      }
      assert serials[..|serials|] == serials && clocks[..|clocks|] == clocks && envs[..|envs|] == envs;
    }

    /** One serial: the shared frame if it is fresh, else a render; last-good is written before the caches. */
    method FanOne(fn: Fn, serial: string, clk: Clock, env: Env) returns (done: bool)
      modifies this
      ensures (S(), done) == FanItem(old(S()), fn, serial, clk, env)
    {
      if fn.invariant_ && (fn.id, fn.version) in shared {
        var e := shared[(fn.id, fn.version)];
        if clk.check - e.renderedAt < fn.ttl {
          if !env.putWorks { return false; }
          good := good[(serial, fn.id) := e.packed];
          hot := hot[(serial, fn.id) := Hot(fn.version, e.packed, clk.seeded)];
          return true;
        }
      }
      if env.render.None? { return false; }
      var packed := env.render.value;
      renders := renders + [Render(fn.id, fn.version, serial, packed, clk.done)];
      if !env.putWorks { return false; }
      good := good[(serial, fn.id) := packed];
      hot := hot[(serial, fn.id) := Hot(fn.version, packed, clk.hot)];
      if fn.invariant_ {
        shared := shared[(fn.id, fn.version) := Shared(packed, clk.shared)];
      }
      done := true;
    }
  }

  /** An item renders successfully at most once, and not while the shared frame of an invariant function is fresh. */
  lemma ItemRenders(s: State, fn: Fn, serial: string, clk: Clock, env: Env)
    ensures var t, k := FanItem(s, fn, serial, clk, env).0, (fn.id, fn.version);
      && |s.renders| <= |t.renders| <= |s.renders| + 1
      && (|t.renders| == |s.renders| ==> t.shared == s.shared)
      && (|t.renders| > |s.renders| && fn.invariant_ && env.putWorks ==> k in t.shared && t.shared[k].renderedAt == clk.shared)
      && (fn.invariant_ && k in s.shared && clk.check - s.shared[k].renderedAt < fn.ttl ==> |t.renders| == |s.renders|)
  {
  }

  /** Item after item; within an item, the stamps follow the age check. */
  predicate InOrder(clocks: seq<Clock>) {
    && (forall i, j :: 0 <= i < j < |clocks| ==> clocks[i].check <= clocks[j].check)
    && (forall i :: 0 <= i < |clocks| ==> clocks[i].check <= clocks[i].shared)
  }

  /** A fan-out of a serial-invariant function whose writes work and whose clock readings span less than one
      time to live. */
  ghost predicate OneLife(fn: Fn, clocks: seq<Clock>, envs: seq<Env>) {
    && fn.invariant_ && (forall i :: 0 <= i < |envs| ==> envs[i].putWorks)
    && clocks != [] && clocks[|clocks| - 1].check - clocks[0].check < fn.ttl
  }

  ghost function FanAll(s: State, fn: Fn, serials: seq<string>, clocks: seq<Clock>, envs: seq<Env>): State
    requires |clocks| == |envs| == |serials|
  {
    if serials == [] then s
    else
      var n := |serials| - 1;
      FanItem(FanAll(s, fn, serials[..n], clocks[..n], envs[..n]), fn, serials[n], clocks[n], envs[n]).0
  }

  /** How many serials ended with a frame stored for them. */
  ghost function FanOk(s: State, fn: Fn, serials: seq<string>, clocks: seq<Clock>, envs: seq<Env>): (k: nat)
    requires |clocks| == |envs| == |serials|
    ensures k <= |serials|
  {
    if serials == [] then 0
    else
      var n := |serials| - 1;
      FanOk(s, fn, serials[..n], clocks[..n], envs[..n])
      + if FanItem(FanAll(s, fn, serials[..n], clocks[..n], envs[..n]), fn, serials[n], clocks[n], envs[n]).1 then 1 else 0
  }
}
