/** The backend's per-session counter check, for any one-time-password function. */
module Session {
  import opened Machine

  const WINDOW_FAR: U64 := 4096
  const TWO_64 := 0x1_0000_0000_0000_0000

  datatype Reason = NoSession | SessionBootstrap | Replay | InSession | NoMatch

  datatype Verdict = Verdict(ok: bool, newCounter: U64, reason: Reason)

  function Refuse(reason: Reason): Verdict {
    Verdict(false, 0, reason)
  }

  /** The sum of the stored counter and the window is a 64-bit sum. */
  function ValidateSession<S, O(==)>(far: U64, secret: Option<S>, lastCounter: U64, bootstrapped: bool, c: U64, otp: O,
                                     hotp: (S, U64) -> O): Verdict
  {
    if secret.None? then Refuse(NoSession)
    else if !bootstrapped then
      if c <= far && hotp(secret.value, c) == otp then Verdict(true, c, SessionBootstrap) else Refuse(NoMatch)
    else if c <= lastCounter then Refuse(Replay)
    else if c <= (lastCounter + far) % TWO_64 then
      if hotp(secret.value, c) == otp then Verdict(true, c, InSession) else Refuse(NoMatch)
    else Refuse(NoMatch)
  }

  /** Exactly the requests that are accepted, whatever the password function. */
  lemma AcceptedIff<S, O>(far: U64, secret: Option<S>, last: U64, boot: bool, c: U64, otp: O, hotp: (S, U64) -> O)
    ensures var v := ValidateSession(far, secret, last, boot, c, otp, hotp);
      && (v.ok <==> secret.Some? && hotp(secret.value, c) == otp
                    && if boot then last < c <= (last + far) % 0x1_0000_0000_0000_0000 else c <= far)
      && v.newCounter == (if v.ok then c else 0)
      && (v.reason.NoSession? <==> secret.None?)
      && (v.reason.Replay? <==> secret.Some? && boot && c <= last)
      && (v.reason.SessionBootstrap? <==> v.ok && !boot) && (v.reason.InSession? <==> v.ok && boot)
  {
  }

  /** A run of requests against one installed secret: the counters that were accepted, in order. */
  function Accepted<S, O(==)>(far: U64, secret: S, hotp: (S, U64) -> O, reqs: seq<(U64, O)>): (seq<U64>, bool, U64)
    decreases |reqs|
  {
    if reqs == [] then ([], false, 0)
    else
      var (acc, boot, last) := Accepted(far, secret, hotp, reqs[..|reqs| - 1]);
      var (c, otp) := reqs[|reqs| - 1];
      var v := ValidateSession(far, Some(secret), last, boot, c, otp, hotp);
      if v.ok then (acc + [c], true, v.newCounter) else (acc, boot, last)
  }

  /** Per installed secret, whatever is sent and replayed, the accepted counters strictly rise; so none is
      accepted twice. */
  lemma {:induction false} CountersStrictlyRise<S, O>(far: U64, secret: S, hotp: (S, U64) -> O, reqs: seq<(U64, O)>)
    ensures var (acc, boot, last) := Accepted(far, secret, hotp, reqs);
      && (forall i, j :: 0 <= i < j < |acc| ==> acc[i] < acc[j])
      && (boot <==> acc != []) && (boot ==> last == acc[|acc| - 1])
  {
    if reqs != [] {
      CountersStrictlyRise(far, secret, hotp, reqs[..|reqs| - 1]);
    }
  }
}
