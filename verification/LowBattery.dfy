/** The low-battery gate: the pure decision of one wake, the clamped configuration, and whole runs of wakes. */
module LowBattery {
  import opened Machine

  type I16 = x: int | -0x8000 <= x < 0x8000

  datatype Cfg = Cfg(armMv: U16, clrMv: U16, riseMv: U16, armStreak: U8)

  datatype Gate = Gate(lock: bool, lastMv: I16, lowStreak: U8)

  datatype Action = Normal | Arm | StayLow

  /** (int16_t)mv */
  function ToI16(mv: int): I16 {
    (mv + 0x8000) % 0x1_0000 - 0x8000
  }

  /** One wake: battery millivolts (negative if implausible), button wake, USB data host, gate enabled. */
  datatype Wake = Wake(mv: int, button: bool, usb: bool, enabled: bool)

  function Decide(w: Wake, st: Gate, cfg: Cfg): (Action, Gate) {
    if !w.enabled then (Normal, st)
    else if w.usb || w.button then
      (Normal, Gate(false, if w.mv >= 0 then ToI16(w.mv) else st.lastMv, 0))
    else if w.mv < 0 then (Normal, st)
    else if st.lock then
      if w.mv >= cfg.clrMv || (st.lastMv >= 0 && w.mv - (st.lastMv as int) >= cfg.riseMv)
      then (Normal, Gate(false, ToI16(w.mv), 0))
      else (StayLow, if w.mv > st.lastMv then st.(lastMv := ToI16(w.mv)) else st)
    else if w.mv >= cfg.armMv then (Normal, st.(lowStreak := 0))
    else
      var s: U8 := if st.lowStreak < 255 then st.lowStreak + 1 else 255;
      if s >= cfg.armStreak then (Arm, Gate(true, ToI16(w.mv), 0)) else (Normal, st.(lowStreak := s))
  }

  // ---------------------------------------------------------------- configuration

  const ARM_MV_DEF: U16 := 3300
  const CLR_MV_DEF: U16 := 3500
  const RISE_MV_DEF: U16 := 40
  const STREAK_DEF: U16 := 2
  const ARM_MV_MIN: U16 := 3000
  const ARM_MV_MAX: U16 := 4250
  const CLR_MV_MAX: U16 := 4250
  const RISE_MV_MIN: U16 := 10
  const RISE_MV_MAX: U16 := 300
  const STREAK_MIN: U16 := 1
  const STREAK_MAX: U16 := 5

  /** The stored value or the default, raised to lo and then lowered to hi. */
  function LoadU16(stored: Option<U16>, def: U16, lo: U16, hi: U16): U16 {
    var v := if stored.Some? then stored.value else def;
    var v1 := if v < lo then lo else v;
    if v1 > hi then hi else v1
  }

  function CfgLoad(arm: Option<U16>, clr: Option<U16>, rise: Option<U16>, streak: Option<U16>): Cfg {
    var a := LoadU16(arm, ARM_MV_DEF, ARM_MV_MIN, ARM_MV_MAX);
    var st: U16 := LoadU16(streak, STREAK_DEF, STREAK_MIN, STREAK_MAX);
    Cfg(a, LoadU16(clr, CLR_MV_DEF, a + 100, CLR_MV_MAX), LoadU16(rise, RISE_MV_DEF, RISE_MV_MIN, RISE_MV_MAX), st)
  }

  function Clamped(v: int, lo: int, hi: int): int {
    if v > hi || lo > hi then hi else if v < lo then lo else v
  }

  /** Every loaded threshold is the stored value or its default, kept in its range. */
  lemma LoadedConfig(arm: Option<U16>, clr: Option<U16>, rise: Option<U16>, streak: Option<U16>)
    ensures var c := CfgLoad(arm, clr, rise, streak);
      && c.armMv == (if arm.Some? then Clamped(arm.value, 3000, 4250) else 3300)
      && c.clrMv == Clamped(if clr.Some? then clr.value else 3500, c.armMv + 100, 4250)
      && c.riseMv == (if rise.Some? then Clamped(rise.value, 10, 300) else 40)
      && c.armStreak == (if streak.Some? then Clamped(streak.value, 1, 5) else 2)
  {
  }

  /** The loaded thresholds never invert; but the promised gap of 100 mV is there for every stored clear value
      exactly if the loaded arm threshold is at most 4150, because the upper clamp comes last. */
  lemma HysteresisGap(arm: Option<U16>, rise: Option<U16>, streak: Option<U16>)
    ensures forall clr :: CfgLoad(arm, clr, rise, streak).armMv <= CfgLoad(arm, clr, rise, streak).clrMv <= CLR_MV_MAX
    ensures (forall clr :: CfgLoad(arm, clr, rise, streak).clrMv >= CfgLoad(arm, clr, rise, streak).armMv + 100)
      <==> LoadU16(arm, ARM_MV_DEF, ARM_MV_MIN, ARM_MV_MAX) <= 4150
  {
    var c := CfgLoad(arm, None, rise, streak);
    assert c.armMv == LoadU16(arm, ARM_MV_DEF, ARM_MV_MIN, ARM_MV_MAX);
  }

  // ---------------------------------------------------------------- whole runs

  const COLD := Gate(false, 0, 0)

  function Run(wakes: seq<Wake>, cfg: Cfg): Gate {
    if wakes == [] then COLD else Decide(wakes[|wakes| - 1], Run(wakes[..|wakes| - 1], cfg), cfg).1
  }

  function ActionAt(wakes: seq<Wake>, i: nat, cfg: Cfg): Action
    requires i < |wakes|
  {
    Decide(wakes[i], Run(wakes[..i], cfg), cfg).0
  }

  /** A wake that the gate acts on by voltage. */
  predicate Measured(w: Wake) {
    w.enabled && !w.usb && !w.button && w.mv >= 0
  }

  predicate Low(w: Wake, cfg: Cfg) {
    Measured(w) && w.mv < cfg.armMv
  }

  /** A wake that restarts the count of low readings. */
  predicate Resets(w: Wake, cfg: Cfg) {
    w.enabled && (w.usb || w.button || w.mv >= cfg.armMv)
  }

  /** The number of low readings since the last reset, counting back from the end. */
  function LowsSinceReset(wakes: seq<Wake>, cfg: Cfg): nat {
    if wakes == [] then 0
    else
      var w := wakes[|wakes| - 1];
      if Resets(w, cfg) then 0 else LowsSinceReset(wakes[..|wakes| - 1], cfg) + if Low(w, cfg) then 1 else 0
  }

  /** The readings taken while the gate has been locked without a break, the arming one included. */
  function LockReadings(wakes: seq<Wake>, cfg: Cfg): seq<int> {
    if wakes == [] || !Run(wakes, cfg).lock then []
    else
      var w, before := wakes[|wakes| - 1], wakes[..|wakes| - 1];
      LockReadings(before, cfg) + if Measured(w) then [w.mv] else []
  }

  ghost predicate CfgOk(cfg: Cfg) {
    1 <= cfg.armStreak && cfg.armMv <= cfg.clrMv <= CLR_MV_MAX
  }

  /** The wakes since the last one that ended a lock or began the run. */
  function SinceUnlock(wakes: seq<Wake>, cfg: Cfg): seq<Wake> {
    if wakes == [] then []
    else
      var before := wakes[..|wakes| - 1];
      if Run(before, cfg).lock then [] else SinceUnlock(before, cfg) + [wakes[|wakes| - 1]]
  }

  /** While unlocked, the streak is the number of low readings since the last reset or unlock. */
  lemma {:induction false} StreakCountsLows(wakes: seq<Wake>, cfg: Cfg)
    requires CfgOk(cfg)
    ensures Run(wakes, cfg).lowStreak < cfg.armStreak
    ensures !Run(wakes, cfg).lock ==> Run(wakes, cfg).lowStreak == LowsSinceReset(SinceUnlock(wakes, cfg), cfg)
  {
    if wakes != [] {
      var n := |wakes| - 1;
      StreakCountsLows(wakes[..n], cfg);
      var since := SinceUnlock(wakes[..n], cfg);
      assert (since + [wakes[n]])[..|since|] == since;
    }
  }

  /** The gate arms exactly when, unlocked, this reading is low and completes a streak of arm_streak low
      readings with no healthy reading, USB host, button wake or earlier lock in between. */
  lemma ArmsIffStreakComplete(wakes: seq<Wake>, i: nat, cfg: Cfg)
    requires CfgOk(cfg) && i < |wakes|
    ensures ActionAt(wakes, i, cfg).Arm? <==>
      !Run(wakes[..i], cfg).lock && Low(wakes[i], cfg)
      && LowsSinceReset(SinceUnlock(wakes[..i + 1], cfg), cfg) >= cfg.armStreak
  {
    StreakCountsLows(wakes[..i], cfg);
    assert wakes[..i + 1][..i] == wakes[..i];
    var since := SinceUnlock(wakes[..i], cfg);
    assert (since + [wakes[i]])[..|since|] == since;
  }

  /** The device is sent back to sleep exactly when a measured wake finds the gate locked and leaves it locked. */
  lemma StaysLowIffStillLocked(wakes: seq<Wake>, i: nat, cfg: Cfg)
    requires i < |wakes|
    ensures ActionAt(wakes, i, cfg).StayLow? <==>
      Run(wakes[..i], cfg).lock && Run(wakes[..i + 1], cfg).lock && Measured(wakes[i])
  {
    assert wakes[..i + 1][..i] == wakes[..i];
  }

  ghost predicate IsMax(m: int, s: seq<int>) {
    m in s && forall x :: x in s ==> x <= m
  }

  /** While locked, the baseline is the highest reading since arming, and all of them are below clear. */
  lemma {:induction false} BaselineIsMaximum(wakes: seq<Wake>, cfg: Cfg)
    requires CfgOk(cfg)
    ensures Run(wakes, cfg).lock ==>
      IsMax(Run(wakes, cfg).lastMv, LockReadings(wakes, cfg))
      && forall x :: x in LockReadings(wakes, cfg) ==> 0 <= x < cfg.clrMv
  {
    if wakes != [] {
      var n := |wakes| - 1;
      BaselineIsMaximum(wakes[..n], cfg);
      if Run(wakes, cfg).lock && Run(wakes[..n], cfg).lock && Measured(wakes[n]) {
        assert LockReadings(wakes, cfg) == LockReadings(wakes[..n], cfg) + [wakes[n].mv];
        assert wakes[n].mv in LockReadings(wakes, cfg);
      }
    }
  }

  /** A reading at least rise above every one of the others. */
  ghost predicate Rises(mv: int, readings: seq<int>, rise: int) {
    forall x :: x in readings ==> mv - x >= rise
  }

  /** A lock ends exactly on USB, a button wake, a reading at or above clear, or a reading that is riseMv above
      every reading since arming. */
  lemma UnlocksIffRecovered(wakes: seq<Wake>, w: Wake, cfg: Cfg)
    requires CfgOk(cfg) && Run(wakes, cfg).lock
    ensures !Run(wakes + [w], cfg).lock <==>
      w.enabled && (w.usb || w.button || (w.mv >= 0 && (w.mv >= cfg.clrMv || Rises(w.mv, LockReadings(wakes, cfg), cfg.riseMv))))
  {
    BaselineIsMaximum(wakes, cfg);
    assert (wakes + [w])[..|wakes|] == wakes;
    var st, readings := Run(wakes, cfg), LockReadings(wakes, cfg);
    assert Run(wakes + [w], cfg) == Decide(w, st, cfg).1;
    assert (st.lastMv as int) in readings;
    assert Rises(w.mv, readings, cfg.riseMv) <==> w.mv - (st.lastMv as int) >= cfg.riseMv;
  }

  /** The gate on the device: RTC state, overwritten at every wake. */
  class Device {
    var state: Gate

    constructor ()
      ensures state == COLD
    {
      state := COLD;
    }

    method LowbattGate(w: Wake, cfg: Cfg, ghost wakes: seq<Wake>) returns (action: Action)
      requires state == Run(wakes, cfg)
      modifies this
      ensures state == Run(wakes + [w], cfg) && action == ActionAt(wakes + [w], |wakes|, cfg)
    {
      var (a, next) := Decide(w, state, cfg);
      assert (wakes + [w])[..|wakes|] == wakes;
      state := next;
      action := a;
    }
  }
}
