/** The token-bucket limiter: lazily refilled buckets behind a capped recency list. Time is in seconds and,
    as Go's monotonic clock, never goes back; the arithmetic is exact. */
module RateLimit {
  import opened Lru

  datatype Bucket = Bucket(tokens: real, lastRefill: real)

  datatype Params = Params(rate: real, burst: real, max: nat)

  ghost predicate ParamsOk(p: Params) {
    p.rate > 0.0 && p.burst >= 1.0 && p.max >= 1
  }

  /** The limiter's state as a value. */
  datatype State = State(buckets: map<string, Bucket>, lru: seq<string>)

  datatype Kind = Allow | Peek | Consume | RetryAfter

  datatype Op = Op(kind: Kind, key: string, now: real)

  function MinReal(a: real, b: real): real {
    if a < b then a else b
  }

  /** What d seconds at a rate bring. */
  function Earned(rate: real, d: real): real {
    rate * d
  }

  // ---------------------------------------------------------------- one operation

  /** What the key's bucket holds at `now`, before the operation: refilled, or new and full. */
  function Refilled(p: Params, s: State, key: string, now: real): real {
    if key in s.buckets
    then MinReal(p.burst, s.buckets[key].tokens + Earned(p.rate, now - s.buckets[key].lastRefill))
    else p.burst
  }

  function Keep(m: map<string, Bucket>, keys: seq<string>): map<string, Bucket> {
    map k | k in m && k in keys :: m[k]
  }

  function Left(kind: Kind, tokens: real): real {
    match kind
    case Allow => if tokens >= 1.0 then tokens - 1.0 else tokens
    case Consume => if tokens - 1.0 < 0.0 then 0.0 else tokens - 1.0
    case _ => tokens
  }

  /** The state after an operation: the key is most recent, its bucket refilled and charged, the tail cut. */
  function After(p: Params, s: State, op: Op): State {
    var lru := Use(s.lru, op.key, p.max);
    State(Keep(s.buckets[op.key := Bucket(Left(op.kind, Refilled(p, s, op.key, op.now)), op.now)], lru), lru)
  }

  function Granted(p: Params, s: State, op: Op): bool {
    op.kind.Allow? && Refilled(p, s, op.key, op.now) >= 1.0
  }

  /** An allow that is granted, or a consume that finds a whole token. */
  predicate Takes(p: Params, s: State, op: Op) {
    (op.kind.Allow? || op.kind.Consume?) && Refilled(p, s, op.key, op.now) >= 1.0
  }

  /** An allow on the key m seconds later would succeed. */
  predicate GrantedAfter(p: Params, s: State, key: string, now: real, m: int) {
    Granted(p, s, Op(Allow, key, now + m as real))
  }

  ghost predicate StateOk(p: Params, s: State, now: real) {
    && Distinct(s.lru) && |s.lru| <= p.max
    && (forall k :: k in s.buckets <==> k in s.lru)
    && (forall k :: k in s.buckets ==> 0.0 <= s.buckets[k].tokens <= p.burst && s.buckets[k].lastRefill <= now)
  }

  lemma MulNonNegative(a: real, b: real)
    requires a >= 0.0 && b >= 0.0
    ensures a * b >= 0.0
  {
  }

  lemma EarnedNonNegative(rate: real, d: real)
    requires rate >= 0.0 && d >= 0.0
    ensures Earned(rate, d) >= 0.0
  {
    MulNonNegative(rate, d);
  }

  lemma EarnedNothing(rate: real)
    ensures Earned(rate, 0.0) == 0.0
  {
  }

  lemma EarnedAdds(rate: real, d: real, e: real)
    ensures Earned(rate, d + e) == Earned(rate, d) + Earned(rate, e)
  {
  }

  lemma RefilledInRange(p: Params, s: State, key: string, now: real, clock: real)
    requires ParamsOk(p) && StateOk(p, s, clock) && clock <= now
    ensures 0.0 <= Refilled(p, s, key, now) <= p.burst
  {
    if key in s.buckets {
      hide Earned;
      EarnedNonNegative(p.rate, now - s.buckets[key].lastRefill);
    }
  }

  lemma UseFacts(lru: seq<string>, key: string, max: nat)
    requires Distinct(lru) && |lru| <= max && max >= 1
    ensures var u := Use(lru, key, max);
      Distinct(u) && |u| <= max && u != [] && u[0] == key && forall k :: k in u ==> k == key || k in lru
  {
    if key in lru {
      ToFrontFacts(lru, key);
    }
  }

  lemma AfterOk(p: Params, s: State, op: Op, clock: real)
    requires ParamsOk(p) && StateOk(p, s, clock) && clock <= op.now
    ensures StateOk(p, After(p, s, op), op.now) && op.key in After(p, s, op).buckets
  {
    UseFacts(s.lru, op.key, p.max);
    RefilledInRange(p, s, op.key, op.now, clock);
    var lru := Use(s.lru, op.key, p.max);
    assert lru[0] == op.key;
  }

  // ---------------------------------------------------------------- the limiter

  class RateLimiter {
    const rate: real
    const burst: real
    const window: real
    const max: nat
    var buckets: map<string, Bucket>
    var lru: seq<string>
    var evictions: nat
    ghost var clock: real
    ghost var uses: seq<string>   // every key operated on, in order

    ghost function P(): Params {
      Params(rate, burst, max)
    }

    ghost function S(): State
      reads this
    {
      State(buckets, lru)
    }

    /** The list is the most recent part of the whole use history. */
    ghost predicate Valid()
      reads this
    {
      ParamsOk(P()) && StateOk(P(), S(), clock) && lru == Cap(Recent(uses), max)
    }

    /** Non-positive settings fall back to 1 request, one minute, one key. */
    constructor (limit: int, windowSecs: real, maxKeys: int)
      ensures Valid() && buckets == map[] && lru == [] && uses == []
      ensures burst == (if limit < 1 then 1 else limit) as real
      ensures window == if windowSecs <= 0.0 then 60.0 else windowSecs
      ensures rate * window == burst
      ensures max == if maxKeys < 1 then 1 else maxKeys
    {
      var l := if limit < 1 then 1 else limit;
      var w := if windowSecs <= 0.0 then 60.0 else windowSecs;
      Quotient(l as real, w);
      rate := l as real / w;
      burst := l as real;
      window := w;
      max := if maxKeys < 1 then 1 else maxKeys;
      buckets, lru, evictions, clock, uses := map[], [], 0, 0.0, [];
    }

    static lemma Quotient(a: real, b: real)
      requires a > 0.0 && b > 0.0
      ensures a / b > 0.0 && a / b * b == a
    {
    }

    /** The key's bucket, refilled or created, with the list trimmed to its cap. */
    method BucketLocked(key: string, now: real) returns (tokens: real)
      requires Valid() && clock <= now
      modifies this
      ensures Valid() && clock == now && uses == old(uses) + [key]
      ensures tokens == Refilled(P(), old(S()), key, now)
      ensures S() == After(P(), old(S()), Op(Peek, key, now))
      ensures key in buckets && buckets[key] == Bucket(tokens, now)
    {
      hide Recent, Cap, Earned;
      ghost var was, goal := S(), After(P(), S(), Op(Peek, key, now));
      AfterOk(P(), was, Op(Peek, key, now), clock);
      UseTracksRecency(lru, uses, key, max);
      clock := now;
      uses := uses + [key];
      if key in buckets {
        tokens := buckets[key].tokens + Earned(rate, now - buckets[key].lastRefill);
        if tokens > burst { tokens := burst; }
        buckets := buckets[key := Bucket(tokens, now)];
        ToFrontFacts(lru, key);
        lru := ToFront(lru, key);
        KeepAll(buckets, lru);
      } else {
        tokens := burst;
        lru := [key] + lru;
        buckets := buckets[key := Bucket(tokens, now)];
        Trim(key, was, tokens, now);
      }
      assert S() == goal;
    }

    /** Evict from the back of the list until it is within the cap. */
    method Trim(key: string, ghost was: State, ghost tokens: real, ghost now: real)
      requires max >= 1 && Distinct(was.lru) && |was.lru| <= max && (forall k :: k in was.buckets <==> k in was.lru)
      requires key !in was.lru && lru == [key] + was.lru && buckets == was.buckets[key := Bucket(tokens, now)]
      modifies this`lru, this`buckets, this`evictions
      ensures lru == Cap([key] + was.lru, max) && buckets == Keep(was.buckets[key := Bucket(tokens, now)], lru)
    {
      ghost var full, all := lru, buckets;
      KeepAll(all, full);
      DistinctInFront(key, was.lru);
      assert full[..|full|] == full;
      hide Keep, Distinct;
      hide Cap;
      while |lru| > max
        invariant |lru| == |full| || max <= |lru| <= |full|
        invariant lru == full[..|lru|] && buckets == Keep(all, lru)
        decreases |lru|
      {
        EvictBack(full, all);
      }
      CapIsPrefix(full, |lru|, max);
    }

    /** Drop the back of the list and its bucket. */
    method EvictBack(ghost full: seq<string>, ghost all: map<string, Bucket>)
      requires Distinct(full) && 1 <= |lru| <= |full| && lru == full[..|lru|] && buckets == Keep(all, lru)
      modifies this`lru, this`buckets, this`evictions
      ensures |lru| == |old(lru)| - 1 && lru == full[..|lru|] && buckets == Keep(all, lru)
    {
      KeepLess(all, full, |lru|);
      hide Keep, Distinct;
      var back := lru[|lru| - 1];
      lru := lru[..|lru| - 1];
      assert lru == full[..|lru|];
      buckets := buckets - {back};
      evictions := evictions + 1;
    }

    static lemma CapIsPrefix(s: seq<string>, n: nat, max: nat)
      requires n <= |s| && n <= max && (n == |s| || max <= n)
      ensures s[..n] == Cap(s, max)
    {
      assert s[..|s|] == s;
    }

    static lemma DistinctInFront(k: string, s: seq<string>)
      requires Distinct(s) && k !in s
      ensures Distinct([k] + s)
    {
    }

    static lemma KeepAll(m: map<string, Bucket>, s: seq<string>)
      requires forall k :: k in m ==> k in s
      ensures Keep(m, s) == m
    {
    }

    static lemma KeepLess(m: map<string, Bucket>, s: seq<string>, n: nat)
      requires Distinct(s) && 1 <= n <= |s|
      ensures Keep(m, s[..n]) - {s[n - 1]} == Keep(m, s[..n - 1])
    {
      assert s[..n] == s[..n - 1] + [s[n - 1]];
      assert forall k :: k in s[..n - 1] <==> k in s[..n] && k != s[n - 1];
    }

    method DoAllow(key: string, now: real) returns (ok: bool)
      requires Valid() && clock <= now
      modifies this
      ensures Valid() && clock == now && uses == old(uses) + [key]
      ensures S() == After(P(), old(S()), Op(Allow, key, now)) && ok == Granted(P(), old(S()), Op(Allow, key, now))
      ensures key in buckets && buckets[key] == Bucket(Refilled(P(), old(S()), key, now) - if ok then 1.0 else 0.0, now)
    {
      hide Use, Recent, Cap, Earned;
      RefilledInRange(P(), S(), key, now, clock);
      var tokens := BucketLocked(key, now);
      if tokens >= 1.0 {
        buckets := buckets[key := Bucket(tokens - 1.0, now)];
        return true;
      }
      ok := false;
    }

    method DoPeek(key: string, now: real) returns (ok: bool)
      requires Valid() && clock <= now
      modifies this
      ensures Valid() && clock == now && uses == old(uses) + [key]
      ensures S() == After(P(), old(S()), Op(Peek, key, now)) && ok == (Refilled(P(), old(S()), key, now) >= 1.0)
      ensures key in buckets && buckets[key] == Bucket(Refilled(P(), old(S()), key, now), now)
    {
      var tokens := BucketLocked(key, now);
      ok := tokens >= 1.0;
    }

    method DoConsume(key: string, now: real)
      requires Valid() && clock <= now
      modifies this
      ensures Valid() && clock == now && uses == old(uses) + [key]
      ensures S() == After(P(), old(S()), Op(Consume, key, now))
      ensures var held := Refilled(P(), old(S()), key, now);
        key in buckets && buckets[key] == Bucket(if held >= 1.0 then held - 1.0 else 0.0, now)
    {
      hide Use, Recent, Cap, Earned;
      RefilledInRange(P(), S(), key, now, clock);
      var tokens := BucketLocked(key, now);
      tokens := tokens - 1.0;
      if tokens < 0.0 { tokens := 0.0; }
      buckets := buckets[key := Bucket(tokens, now)];
    }

    /** The whole seconds until the key holds a token: the least positive number after which allow succeeds. */
    method DoRetryAfter(key: string, now: real) returns (n: int)
      requires Valid() && clock <= now
      modifies this
      ensures Valid() && clock == now && uses == old(uses) + [key]
      ensures S() == After(P(), old(S()), Op(RetryAfter, key, now))
      ensures n >= 1 && GrantedAfter(P(), S(), key, now, n)
      ensures forall m: int :: 1 <= m < n ==> !GrantedAfter(P(), S(), key, now, m)
    {
      hide Use, Recent, Cap, Keep, Earned;
      var tokens := BucketLocked(key, now);
      if tokens >= 1.0 {
        EarnedNonNegative(rate, 1.0);
        return 1;
      }
      if rate <= 0.0 {
        return window.Floor;
      }
      var secs := (1.0 - tokens) / rate;
      n := secs.Floor;
      if n as real < secs {
        n := n + 1;
      }
      if n < 1 {
        n := 1;
      }
      WaitSuffices(tokens, rate, n as real);
      forall m: int | 1 <= m < n
        ensures !GrantedAfter(P(), S(), key, now, m)
      {
        WaitTooShort(tokens, rate, m as real);
      }
    }

    static lemma WaitSuffices(tokens: real, rate: real, n: real)
      requires rate > 0.0 && n >= (1.0 - tokens) / rate
      ensures tokens + Earned(rate, n) >= 1.0
    {
      var secs := (1.0 - tokens) / rate;
      assert secs * rate == 1.0 - tokens;
      MulNonNegative(n - secs, rate);
      assert (n - secs) * rate == n * rate - secs * rate;
    }

    static lemma WaitTooShort(tokens: real, rate: real, m: real)
      requires rate > 0.0 && m < (1.0 - tokens) / rate
      ensures tokens + Earned(rate, m) < 1.0
    {
      var secs := (1.0 - tokens) / rate;
      assert secs * rate == 1.0 - tokens;
      assert (secs - m) * rate > 0.0;
      assert (secs - m) * rate == secs * rate - m * rate;
    }

    method Len() returns (n: nat)
      requires Valid()
      ensures n == |buckets| <= max
    {
      n := |buckets|;
      KeyCount(lru, buckets.Keys);
    }

    static lemma {:induction false} KeyCount(s: seq<string>, keys: set<string>)
      requires Distinct(s) && forall k :: k in keys <==> k in s
      ensures |keys| == |s|
    {
      if s != [] {
        assert s[0] !in s[1..];
        KeyCount(s[1..], keys - {s[0]});
      } else {
        assert keys == {};
      }
    }
  }

  // ---------------------------------------------------------------- the rate bound over whole runs

  ghost predicate Ordered(ops: seq<Op>, start: real) {
    (ops != [] ==> start <= ops[0].now) && forall i, j :: 0 <= i < j < |ops| ==> ops[i].now <= ops[j].now
  }

  ghost function Run(p: Params, s: State, ops: seq<Op>): State {
    if ops == [] then s else After(p, Run(p, s, ops[..|ops| - 1]), ops[|ops| - 1])
  }

  /** How many whole tokens were taken from the key. */
  ghost function Taken(p: Params, s: State, ops: seq<Op>, key: string): nat {
    if ops == [] then 0
    else
      var n := |ops| - 1;
      Taken(p, s, ops[..n], key) + if ops[n].key == key && Takes(p, Run(p, s, ops[..n]), ops[n]) then 1 else 0
  }

  /** How often the key was evicted by an operation on another key. */
  ghost function Evictions(p: Params, s: State, ops: seq<Op>, key: string): nat {
    if ops == [] then 0
    else
      var n := |ops| - 1;
      Evictions(p, s, ops[..n], key)
      + if key in Run(p, s, ops[..n]).buckets && key !in Run(p, s, ops).buckets then 1 else 0
  }

  function LastTime(ops: seq<Op>, start: real): real {
    if ops == [] then start else ops[|ops| - 1].now
  }

  lemma CreditGrows(p: Params, s: State, key: string, t: real, u: real)
    requires ParamsOk(p) && t <= u
    ensures Refilled(p, s, key, u) <= Refilled(p, s, key, t) + Earned(p.rate, u - t)
  {
    hide Earned;
    EarnedNonNegative(p.rate, u - t);
    if key in s.buckets {
      EarnedAdds(p.rate, t - s.buckets[key].lastRefill, u - t);
    }
  }

  /** One operation: what is taken from the key comes out of its credit, unless it is evicted. */
  lemma CreditStep(p: Params, s: State, op: Op, key: string, t: real)
    requires ParamsOk(p) && StateOk(p, s, t) && t <= op.now
    ensures var s' := After(p, s, op);
      (if op.key == key && Takes(p, s, op) then 1.0 else 0.0) + Refilled(p, s', key, op.now)
      <= Refilled(p, s, key, t) + Earned(p.rate, op.now - t) + (if key in s.buckets && key !in s'.buckets then p.burst else 0.0)
  {
    hide Earned, Use;
    CreditGrows(p, s, key, t, op.now);
    EarnedNothing(p.rate);
    RefilledInRange(p, s, key, op.now, t);
    AfterOk(p, s, op, t);
  }

  lemma {:induction false} StateOverRun(p: Params, s: State, ops: seq<Op>, start: real)
    requires ParamsOk(p) && StateOk(p, s, start) && Ordered(ops, start)
    ensures StateOk(p, Run(p, s, ops), LastTime(ops, start)) && start <= LastTime(ops, start)
  {
    hide After, StateOk, ParamsOk;
    if ops != [] {
      var n := |ops| - 1;
      StateOverRun(p, s, ops[..n], start);
      AfterOk(p, Run(p, s, ops[..n]), ops[n], LastTime(ops[..n], start));
    }
  }

  /** From any state, over any interval: the tokens taken from a key are at most what it holds at the start, plus the
      rate times the length of the interval, plus one burst for every time it was evicted. */
  lemma {:induction false} TakenBounded(p: Params, s: State, ops: seq<Op>, key: string, start: real)
    requires ParamsOk(p) && StateOk(p, s, start) && Ordered(ops, start)
    ensures Taken(p, s, ops, key) as real + Refilled(p, Run(p, s, ops), key, LastTime(ops, start))
      <= Refilled(p, s, key, start) + Earned(p.rate, LastTime(ops, start) - start) + Earned(p.burst, Evictions(p, s, ops, key) as real)
  {
    hide After, Refilled, Takes, StateOk, ParamsOk, Earned;
    EarnedNothing(p.rate);
    EarnedNothing(p.burst);
    if ops != [] {
      var n := |ops| - 1;
      var before, op := ops[..n], ops[n];
      TakenBounded(p, s, before, key, start);
      StateOverRun(p, s, before, start);
      var t, mid := LastTime(before, start), Run(p, s, before);
      CreditStep(p, mid, op, key, t);
      var granted := op.key == key && Takes(p, mid, op);
      var evicted := key in mid.buckets && key !in After(p, mid, op).buckets;
      Chain(Refilled(p, s, key, start), Taken(p, s, before, key), Refilled(p, mid, key, t),
            granted, Refilled(p, After(p, mid, op), key, op.now),
            p.rate, start, t, op.now, Evictions(p, s, before, key), evicted, p.burst);
    }
  }

  lemma Chain(c0: real, g: nat, c1: real, granted: bool, c2: real, r: real, t0: real, t1: real, t2: real, e: nat, evicted: bool, b: real)
    requires g as real + c1 <= c0 + Earned(r, t1 - t0) + Earned(b, e as real)
    requires (if granted then 1.0 else 0.0) + c2 <= c1 + Earned(r, t2 - t1) + (if evicted then b else 0.0)
    ensures (g + if granted then 1 else 0) as real + c2 <= c0 + Earned(r, t2 - t0) + Earned(b, (e + if evicted then 1 else 0) as real)
  {
    assert r * (t2 - t0) == r * (t1 - t0) + r * (t2 - t1);
    assert (e + 1) as real * b == e as real * b + b;
  }

  /** From a key that stays resident at most burst + rate * (t1 - t0) tokens are taken. */
  lemma ResidentKeyIsRateLimited(p: Params, s: State, ops: seq<Op>, key: string, start: real)
    requires ParamsOk(p) && StateOk(p, s, start) && Ordered(ops, start) && Evictions(p, s, ops, key) == 0
    ensures Taken(p, s, ops, key) as real <= p.burst + Earned(p.rate, LastTime(ops, start) - start)
  {
    hide After, Refilled, Takes, Earned;
    TakenBounded(p, s, ops, key, start);
    EarnedNothing(p.burst);
    StateOverRun(p, s, ops, start);
    RefilledInRange(p, s, key, start, start);
    RefilledInRange(p, Run(p, s, ops), key, LastTime(ops, start), LastTime(ops, start));
  }

  // ---------------------------------------------------------------- what each operation charges, and nothing else does

  /** What a bucket holds: new ones are full, others earn the rate since the last refill, up to the burst. */
  lemma RefilledIs(p: Params, s: State, key: string, now: real)
    ensures key !in s.buckets ==> Refilled(p, s, key, now) == p.burst
    ensures key in s.buckets ==>
      var held := s.buckets[key].tokens + p.rate * (now - s.buckets[key].lastRefill);
      Refilled(p, s, key, now) == if held > p.burst then p.burst else held
  {
  }

  /** A granted allow takes one token and a refused one nothing, a consume takes one or what is left of it, and the
      other two take nothing. */
  lemma Charged(p: Params, s: State, op: Op, clock: real)
    requires ParamsOk(p) && StateOk(p, s, clock) && clock <= op.now
    ensures var s', held := After(p, s, op), Refilled(p, s, op.key, op.now);
      && op.key in s'.buckets && s'.buckets[op.key].lastRefill == op.now
      && s'.buckets[op.key].tokens ==
         match op.kind
         case Allow => if held >= 1.0 then held - 1.0 else held
         case Consume => if held >= 1.0 then held - 1.0 else 0.0
         case Peek => held
         case RetryAfter => held
  {
    AfterOk(p, s, op, clock);
  }

  /** An operation changes no other bucket; it can only evict it. */
  lemma OthersKept(p: Params, s: State, op: Op, key: string)
    requires key != op.key && key in After(p, s, op).buckets
    ensures key in s.buckets && After(p, s, op).buckets[key] == s.buckets[key]
  {
  }

  /** How often a token, or what was left of one, was taken from the key. */
  ghost function Charges(p: Params, s: State, ops: seq<Op>, key: string): nat {
    if ops == [] then 0
    else
      var n := |ops| - 1;
      Charges(p, s, ops[..n], key) + if ops[n].key == key && IsCharge(p, Run(p, s, ops[..n]), ops[n]) then 1 else 0
  }

  predicate IsCharge(p: Params, s: State, op: Op) {
    op.kind.Consume? || Granted(p, s, op)
  }

  lemma RefillsSince(p: Params, s: State, key: string, t: real, u: real)
    requires ParamsOk(p) && t <= u
    ensures Refilled(p, s, key, u) >= MinReal(p.burst, Refilled(p, s, key, t) + Earned(p.rate, u - t))
  {
    hide Earned;
    if key in s.buckets {
      EarnedNonNegative(p.rate, u - t);
      EarnedAdds(p.rate, t - s.buckets[key].lastRefill, u - t);
    }
  }

  lemma ChargeStep(p: Params, s: State, op: Op, key: string, t: real)
    requires ParamsOk(p) && StateOk(p, s, t) && t <= op.now
    ensures Refilled(p, After(p, s, op), key, op.now) >= Refilled(p, s, key, op.now) - (if op.key == key && IsCharge(p, s, op) then 1.0 else 0.0)
  {
    hide Earned, After;
    EarnedNothing(p.rate);
    RefilledInRange(p, s, key, op.now, t);
    Charged(p, s, op, t);
    if key != op.key && key in After(p, s, op).buckets {
      OthersKept(p, s, op, key);
    }
  }

  /** Nothing but its charges takes from a key: over every run it keeps what it holds at the start and earns since,
      up to the burst, less one for each charge. */
  lemma {:induction false} KeptLessCharges(p: Params, s: State, ops: seq<Op>, key: string, start: real)
    requires ParamsOk(p) && StateOk(p, s, start) && Ordered(ops, start)
    ensures Refilled(p, Run(p, s, ops), key, LastTime(ops, start)) >=
      MinReal(p.burst, Refilled(p, s, key, start) + Earned(p.rate, LastTime(ops, start) - start)) - Charges(p, s, ops, key) as real
  {
    hide After, Refilled, IsCharge, StateOk, Earned;
    EarnedNothing(p.rate);
    if ops != [] {
      var n := |ops| - 1;
      var before, op := ops[..n], ops[n];
      KeptLessCharges(p, s, before, key, start);
      StateOverRun(p, s, before, start);
      var t, mid := LastTime(before, start), Run(p, s, before);
      RefillsSince(p, mid, key, t, op.now);
      ChargeStep(p, mid, op, key, t);
      EarnedAdds(p.rate, t - start, op.now - t);
      EarnedNonNegative(p.rate, op.now - t);
    }
  }

  /** Whatever happens to other keys, and however often this one is refused, peeked at or asked for its wait: an
      allow is granted, and a consume finds a whole token, once one was held at the start or has been earned
      since. */
  lemma WholeTokenIsThere(p: Params, s: State, ops: seq<Op>, key: string, start: real, now: real)
    requires ParamsOk(p) && StateOk(p, s, start) && Ordered(ops, start) && LastTime(ops, start) <= now
    requires Charges(p, s, ops, key) == 0 && Refilled(p, s, key, start) + Earned(p.rate, now - start) >= 1.0
    ensures Granted(p, Run(p, s, ops), Op(Allow, key, now)) && Takes(p, Run(p, s, ops), Op(Consume, key, now))
  {
    hide Refilled, Earned, Run, Charges;
    var t := LastTime(ops, start);
    KeptLessCharges(p, s, ops, key, start);
    StateOverRun(p, s, ops, start);
    RefillsSince(p, Run(p, s, ops), key, t, now);
    EarnedAdds(p.rate, t - start, now - t);
    EarnedNonNegative(p.rate, now - t);
  }

  function Consumes(key: string, now: real, n: nat): seq<Op> {
    if n == 0 then [] else Consumes(key, now, n - 1) + [Op(Consume, key, now)]
  }

  /** n consumes with no time between leave the key what it held less n, and at least nothing; so the gate that
      peeks first still opens exactly if one more whole token was there. */
  lemma {:induction false} PeekAfterConsumes(p: Params, s: State, key: string, now: real, n: nat)
    requires ParamsOk(p) && StateOk(p, s, now)
    ensures var t, held := Run(p, s, Consumes(key, now, n)), Refilled(p, s, key, now);
      && StateOk(p, t, now)
      && Refilled(p, t, key, now) == (if held >= n as real then held - n as real else 0.0)
      && (Refilled(p, t, key, now) >= 1.0 <==> (n + 1) as real <= held)
  {
    hide After, Refilled, StateOk;
    RefilledInRange(p, s, key, now, now);
    if n > 0 {
      PeekAfterConsumes(p, s, key, now, n - 1);
      var before := Consumes(key, now, n - 1);
      var t, op := Run(p, s, before), Op(Consume, key, now);
      assert (before + [op])[..|before|] == before;
      AfterOk(p, t, op, now);
      Charged(p, t, op, now);
      JustRefilled(p, After(p, t, op), key, now);
    }
  }

  lemma JustRefilled(p: Params, s: State, key: string, now: real)
    requires StateOk(p, s, now) && key in s.buckets && s.buckets[key].lastRefill == now
    ensures Refilled(p, s, key, now) == s.buckets[key].tokens
  {
    EarnedNothing(p.rate);
  }

  /** The other keys operated on since the last operation on this one. */
  ghost function Since(ops: seq<Op>, key: string): set<string> {
    if ops == [] || ops[|ops| - 1].key == key then {} else Since(ops[..|ops| - 1], key) + {ops[|ops| - 1].key}
  }

  ghost predicate Uses(ops: seq<Op>, key: string) {
    exists i :: 0 <= i < |ops| && ops[i].key == key
  }

  /** Between any two operations on the key, fewer than `max` other keys are operated on. */
  ghost predicate Spaced(ops: seq<Op>, key: string, max: nat) {
    forall n :: 0 <= n < |ops| && ops[n].key == key && Uses(ops[..n], key) ==> |Since(ops[..n], key)| < max
  }

  /** The same up to every moment, not only up to every operation on the key. */
  ghost predicate SpacedThroughout(ops: seq<Op>, key: string, max: nat) {
    forall n :: 0 <= n <= |ops| && Uses(ops[..n], key) ==> |Since(ops[..n], key)| < max
  }

  lemma {:induction false} SinceGrows(ops: seq<Op>, key: string, n: nat, m: nat)
    requires n <= m <= |ops| && forall i :: n <= i < m ==> ops[i].key != key
    ensures Since(ops[..n], key) <= Since(ops[..m], key)
    decreases m
  {
    if n < m {
      SinceGrows(ops, key, n, m - 1);
      assert ops[..m][..m - 1] == ops[..m - 1];
    }
  }

  lemma SmallerSet(a: set<string>, b: set<string>)
    requires a <= b
    ensures |a| <= |b|
  {
    assert b == a + (b - a);
  }

  lemma {:induction false} NextUse(ops: seq<Op>, key: string, n: nat) returns (m: nat)
    requires n < |ops| && ops[|ops| - 1].key == key
    ensures n <= m < |ops| && ops[m].key == key && forall i :: n <= i < m ==> ops[i].key != key
    decreases |ops| - n
  {
    m := n;
    if ops[n].key != key {
      m := NextUse(ops, key, n + 1);
    }
  }

  lemma SpacedToLastUse(ops: seq<Op>, key: string, max: nat)
    requires max >= 1 && Spaced(ops, key, max) && ops != [] && ops[|ops| - 1].key == key
    ensures SpacedThroughout(ops, key, max)
  {
    forall n | 0 <= n <= |ops| && Uses(ops[..n], key)
      ensures |Since(ops[..n], key)| < max
    {
      if n < |ops| {
        var m := NextUse(ops, key, n);
        SinceGrows(ops, key, n, m);
        SmallerSet(Since(ops[..n], key), Since(ops[..m], key));
        var i :| 0 <= i < n && ops[..n][i].key == key;
        assert ops[..m][i].key == key;
      } else {
        assert ops[..n] == ops;
      }
    }
  }

  /** A key new to the limiter is resident after it was used as long as it was not evicted since, and then exactly
      the keys used since are in front of it. Under that spacing it is never evicted. */
  lemma {:induction false} Residency(p: Params, s: State, ops: seq<Op>, key: string, start: real)
    requires ParamsOk(p) && StateOk(p, s, start) && Ordered(ops, start) && key !in s.buckets
    ensures var t := Run(p, s, ops);
      && (key in t.lru ==> Uses(ops, key) && Ahead(t.lru, key) == Since(ops, key))
      && (Uses(ops, key) && Evictions(p, s, ops, key) == 0 ==> key in t.lru)
      && (SpacedThroughout(ops, key, p.max) ==> Evictions(p, s, ops, key) == 0)
  {
    if ops != [] {
      hide After, StateOk, SpacedThroughout;
      var n := |ops| - 1;
      var before, op := ops[..n], ops[n];
      Residency(p, s, before, key, start);
      StateOverRun(p, s, before, start);
      StaysOneStep(p, Run(p, s, before), before, op, key, LastTime(before, start));
      UsesLast(ops, key);
      AfterOk(p, Run(p, s, before), op, LastTime(before, start));
      ResidentInBoth(p, Run(p, s, before), LastTime(before, start), key);
      ResidentInBoth(p, Run(p, s, ops), op.now, key);
      if SpacedThroughout(ops, key, p.max) {
        ThroughoutBefore(ops, key, p.max);
      }
    } else {
      ResidentInBoth(p, s, start, key);
    }
  }

  lemma ResidentInBoth(p: Params, s: State, now: real, key: string)
    requires StateOk(p, s, now)
    ensures key in s.buckets <==> key in s.lru
  {
  }

  lemma UsesLast(ops: seq<Op>, key: string)
    requires ops != []
    ensures Uses(ops, key) <==> Uses(ops[..|ops| - 1], key) || ops[|ops| - 1].key == key
  {
    var n := |ops| - 1;
    if i :| 0 <= i < n && ops[i].key == key {
      assert ops[..n][i].key == key;
    }
    if i :| 0 <= i < n && ops[..n][i].key == key {
      assert ops[i].key == key;
    }
  }

  lemma ThroughoutBefore(ops: seq<Op>, key: string, max: nat)
    requires ops != [] && SpacedThroughout(ops, key, max)
    ensures SpacedThroughout(ops[..|ops| - 1], key, max)
    ensures Uses(ops, key) ==> |Since(ops, key)| < max
  {
    assert ops[..|ops|] == ops;
    var before := ops[..|ops| - 1];
    forall n | 0 <= n <= |before| && Uses(before[..n], key)
      ensures |Since(before[..n], key)| < max
    {
      assert before[..n] == ops[..n];
    }
  }

  lemma StaysOneStep(p: Params, s: State, before: seq<Op>, op: Op, key: string, clock: real)
    requires ParamsOk(p) && StateOk(p, s, clock)
    requires key in s.lru ==> Ahead(s.lru, key) == Since(before, key)
    ensures var t := After(p, s, op);
      && (op.key == key ==> key in t.lru && Ahead(t.lru, key) == {})
      && (op.key != key && key in t.lru ==> key in s.lru && Ahead(t.lru, key) == Since(before, key) + {op.key})
      && (op.key != key && key in s.lru && |Since(before, key) + {op.key}| < p.max ==> key in t.lru)
  {
    hide Keep, Left, Refilled, Since;
    UseFacts(s.lru, op.key, p.max);
    if op.key != key && key in s.lru {
      UseKeeps(s.lru, op.key, key, p.max);
    }
  }

  /** The operations up to the last one on the key. */
  ghost function ToLastUse(ops: seq<Op>, key: string): seq<Op> {
    if ops == [] || ops[|ops| - 1].key == key then ops else ToLastUse(ops[..|ops| - 1], key)
  }

  lemma {:induction false} ToLastUseFacts(p: Params, s: State, ops: seq<Op>, key: string, start: real)
    requires Ordered(ops, start)
    ensures var u := ToLastUse(ops, key);
      && |u| <= |ops| && u == ops[..|u|] && Ordered(u, start) && (u == [] || u[|u| - 1].key == key)
      && Taken(p, s, u, key) == Taken(p, s, ops, key) && LastTime(u, start) <= LastTime(ops, start)
  {
    hide Takes, Run;
    if ops != [] && ops[|ops| - 1].key != key {
      var n := |ops| - 1;
      ToLastUseFacts(p, s, ops[..n], key, start);
      var u := ToLastUse(ops, key);
      assert ops[..n][..|u|] == ops[..|u|];
    } else {
      assert ops[..|ops|] == ops;
    }
  }

  lemma SpacedPrefix(ops: seq<Op>, key: string, max: nat, n: nat)
    requires n <= |ops| && Spaced(ops, key, max)
    ensures Spaced(ops[..n], key, max)
  {
    forall m | 0 <= m < n && ops[..n][m].key == key && Uses(ops[..n][..m], key)
      ensures |Since(ops[..n][..m], key)| < max
    {
      assert ops[..n][..m] == ops[..m];
    }
  }

  lemma {:induction false} EvictionsGrow(p: Params, s: State, ops: seq<Op>, key: string, n: nat)
    requires n <= |ops|
    ensures Evictions(p, s, ops[..n], key) <= Evictions(p, s, ops, key)
  {
    hide Run;
    if n < |ops| {
      EvictionsGrow(p, s, ops[..|ops| - 1], key, n);
      assert ops[..|ops| - 1][..n] == ops[..n];
    } else {
      assert ops[..n] == ops;
    }
  }

  lemma NoEvictions(p: Params, s: State, key: string)
    ensures Evictions(p, s, [], key) == 0
  {
  }

  lemma OrderedPrefix(ops: seq<Op>, start: real, n: nat)
    requires n <= |ops| && Ordered(ops, start)
    ensures Ordered(ops[..n], start)
  {
  }

  /** Residency in terms of the calls alone: up to its last use a new key is never evicted exactly if fewer than
      `max` other keys come between any two operations on it. */
  lemma ResidentIffSpaced(p: Params, s: State, ops: seq<Op>, key: string, start: real)
    requires ParamsOk(p) && StateOk(p, s, start) && Ordered(ops, start) && key !in s.buckets
    requires ops != [] && ops[|ops| - 1].key == key
    ensures Evictions(p, s, ops, key) == 0 <==> Spaced(ops, key, p.max)
  {
    if Spaced(ops, key, p.max) {
      SpacedToLastUse(ops, key, p.max);
      Residency(p, s, ops, key, start);
    }
    if Evictions(p, s, ops, key) == 0 {
      forall n | 0 <= n < |ops| && ops[n].key == key && Uses(ops[..n], key)
        ensures |Since(ops[..n], key)| < p.max
      {
        EvictionsGrow(p, s, ops, key, n);
        OrderedPrefix(ops, start, n);
        Residency(p, s, ops[..n], key, start);
        FewAhead(p, s, ops[..n], key, start);
      }
    }
  }

  lemma FewAhead(p: Params, s: State, ops: seq<Op>, key: string, start: real)
    requires ParamsOk(p) && StateOk(p, s, start) && Ordered(ops, start) && key in Run(p, s, ops).lru
    ensures |Ahead(Run(p, s, ops).lru, key)| < p.max
  {
    StateOverRun(p, s, ops, start);
    AheadFacts(Run(p, s, ops).lru, key);
  }

  /** What callers can see to: if fewer than `max` other keys come between any two operations on a key that is new
      to the limiter, at most burst + rate * (t1 - t0) tokens are taken from it. */
  lemma SpacedKeyIsRateLimited(p: Params, s: State, ops: seq<Op>, key: string, start: real)
    requires ParamsOk(p) && StateOk(p, s, start) && Ordered(ops, start) && key !in s.buckets && Spaced(ops, key, p.max)
    ensures Taken(p, s, ops, key) as real <= p.burst + Earned(p.rate, LastTime(ops, start) - start)
  {
    hide Taken, Evictions, Spaced, StateOk, Earned, Run, Ordered;
    var u := ToLastUse(ops, key);
    ToLastUseFacts(p, s, ops, key, start);
    if u != [] {
      SpacedPrefix(ops, key, p.max, |u|);
      ResidentIffSpaced(p, s, u, key, start);
    } else {
      NoEvictions(p, s, key);
    }
    ResidentKeyIsRateLimited(p, s, u, key, start);
    EarnedAdds(p.rate, LastTime(u, start) - start, LastTime(ops, start) - LastTime(u, start));
    EarnedNonNegative(p.rate, LastTime(ops, start) - LastTime(u, start));
  }

  // ---------------------------------------------------------------- the gate before authentication

  /** The n-th operation charges the key after a peek that found a token, with no other operation on it between. */
  ghost predicate GatedAt(p: Params, s: State, ops: seq<Op>, key: string, n: nat)
    requires n < |ops|
  {
    exists m :: 0 <= m < n && OpensGate(p, s, ops, key, m) && forall i :: m < i < n ==> ops[i].key != key
  }

  ghost predicate OpensGate(p: Params, s: State, ops: seq<Op>, key: string, m: nat)
    requires m < |ops|
  {
    ops[m].kind.Peek? && ops[m].key == key && Refilled(p, Run(p, s, ops[..m]), key, ops[m].now) >= 1.0
  }

  /** The key is only consumed from, and each time through the gate: requests of one key do not overlap. */
  ghost predicate Gated(p: Params, s: State, ops: seq<Op>, key: string) {
    forall n :: 0 <= n < |ops| && ops[n].key == key && ops[n].kind.Consume? ==> GatedAt(p, s, ops, key, n)
  }

  ghost function Attempts(ops: seq<Op>, key: string): nat {
    if ops == [] then 0
    else Attempts(ops[..|ops| - 1], key) + if ops[|ops| - 1].key == key && ops[|ops| - 1].kind.Consume? then 1 else 0
  }

  lemma {:induction false} GateStaysOpen(p: Params, s: State, ops: seq<Op>, key: string, m: nat, start: real)
    requires ParamsOk(p) && StateOk(p, s, start) && Ordered(ops, start)
    requires m < |ops| && OpensGate(p, s, ops, key, m) && forall i :: m < i < |ops| ==> ops[i].key != key
    ensures Refilled(p, Run(p, s, ops), key, LastTime(ops, start)) >= 1.0
  {
    hide After, Refilled, StateOk, Earned;
    var n := |ops| - 1;
    var before, op := ops[..n], ops[n];
    StateOverRun(p, s, before, start);
    var t, mid := LastTime(before, start), Run(p, s, before);
    if m < n {
      assert before[..m] == ops[..m] && before[m] == ops[m];
      GateStaysOpen(p, s, before, key, m, start);
      RefillsSince(p, mid, key, t, op.now);
      EarnedNonNegative(p.rate, op.now - t);
    }
    ChargeStep(p, mid, op, key, t);
  }

  lemma GatedTakes(p: Params, s: State, ops: seq<Op>, key: string, n: nat, start: real)
    requires ParamsOk(p) && StateOk(p, s, start) && Ordered(ops, start)
    requires n < |ops| && ops[n].key == key && ops[n].kind.Consume? && GatedAt(p, s, ops, key, n)
    ensures Takes(p, Run(p, s, ops[..n]), ops[n])
  {
    hide Refilled, StateOk, Earned, Run;
    var m :| 0 <= m < n && OpensGate(p, s, ops, key, m) && forall i :: m < i < n ==> ops[i].key != key;
    var before := ops[..n];
    assert before[..m] == ops[..m];
    GateStaysOpen(p, s, before, key, m, start);
    RefillsSince(p, Run(p, s, before), key, LastTime(before, start), ops[n].now);
    EarnedNonNegative(p.rate, ops[n].now - LastTime(before, start));
  }

  lemma {:induction false} GatedAttemptsTake(p: Params, s: State, ops: seq<Op>, key: string, start: real)
    requires ParamsOk(p) && StateOk(p, s, start) && Ordered(ops, start) && Gated(p, s, ops, key)
    ensures Attempts(ops, key) <= Taken(p, s, ops, key)
  {
    hide StateOk, Takes, Run, OpensGate;
    if ops != [] {
      var n := |ops| - 1;
      var before := ops[..n];
      forall k | 0 <= k < n && before[k].key == key && before[k].kind.Consume?
        ensures GatedAt(p, s, before, key, k)
      {
        assert GatedAt(p, s, ops, key, k);
        var m :| 0 <= m < k && OpensGate(p, s, ops, key, m) && forall i :: m < i < k ==> ops[i].key != key;
        PrefixOpensGate(p, s, ops, key, m, n);
      }
      GatedAttemptsTake(p, s, before, key, start);
      if ops[n].key == key && ops[n].kind.Consume? {
        GatedTakes(p, s, ops, key, n, start);
      }
    }
  }

  lemma PrefixOpensGate(p: Params, s: State, ops: seq<Op>, key: string, m: nat, n: nat)
    requires m < n <= |ops| && OpensGate(p, s, ops, key, m)
    ensures OpensGate(p, s, ops[..n], key, m)
  {
    assert ops[..n][..m] == ops[..m];
  }

  /** The brute-force brake: failed attempts that each passed the gate before they were charged are limited like
      grants, to burst + rate * (t1 - t0), for a new key that is used often enough to stay resident. */
  lemma GatedAttemptsAreLimited(p: Params, s: State, ops: seq<Op>, key: string, start: real)
    requires ParamsOk(p) && StateOk(p, s, start) && Ordered(ops, start) && key !in s.buckets && Spaced(ops, key, p.max)
    requires Gated(p, s, ops, key)
    ensures Attempts(ops, key) as real <= p.burst + Earned(p.rate, LastTime(ops, start) - start)
  {
    hide StateOk, Gated, Spaced, Earned, Ordered;
    GatedAttemptsTake(p, s, ops, key, start);
    SpacedKeyIsRateLimited(p, s, ops, key, start);
  }

  // Residency is needed: with room for one key, two keys that take turns evict each other.

  function Alternate(a: string, b: string, n: nat): seq<Op> {
    if n == 0 then [] else Alternate(a, b, n - 1) + [Op(Allow, a, 0.0)] + [Op(Allow, b, 0.0)]
  }

  lemma {:induction false} EvictionRefills(rate: real, a: string, b: string, n: nat)
    requires rate > 0.0 && a != b
    ensures var p, s := Params(rate, 1.0, 1), State(map[], []);
      && Taken(p, s, Alternate(a, b, n), a) == n
      && Run(p, s, Alternate(a, b, n)) == (if n == 0 then s else State(map[b := Bucket(0.0, 0.0)], [b]))
  {
    if n > 0 {
      EvictionRefills(rate, a, b, n - 1);
      var p, s := Params(rate, 1.0, 1), State(map[], []);
      var before := Alternate(a, b, n - 1);
      var x, y := Op(Allow, a, 0.0), Op(Allow, b, 0.0);
      TurnTaken(rate, Run(p, s, before), a, b);
      OneMore(p, s, before, x, a);
      TurnTaken(rate, Run(p, s, before + [x]), b, a);
      OneMore(p, s, before + [x], y, a);
      hide After, Takes, Run, Taken;
    }
  }

  lemma OneMore(p: Params, s: State, ops: seq<Op>, op: Op, key: string)
    ensures Run(p, s, ops + [op]) == After(p, Run(p, s, ops), op)
    ensures Taken(p, s, ops + [op], key) == Taken(p, s, ops, key) + if op.key == key && Takes(p, Run(p, s, ops), op) then 1 else 0
  {
    hide After, Takes;
    assert (ops + [op])[..|ops|] == ops;
  }

  lemma TurnTaken(rate: real, s: State, a: string, b: string)
    requires a != b && (s == State(map[], []) || s == State(map[b := Bucket(0.0, 0.0)], [b]))
    ensures var p := Params(rate, 1.0, 1);
      Takes(p, s, Op(Allow, a, 0.0)) && After(p, s, Op(Allow, a, 0.0)) == State(map[a := Bucket(0.0, 0.0)], [a])
  {
    var p := Params(rate, 1.0, 1);
    hide Earned;
    assert Use(s.lru, a, 1) == [a];
    assert Keep(s.buckets[a := Bucket(0.0, 0.0)], [a]) == map[a := Bucket(0.0, 0.0)];
  }
}
