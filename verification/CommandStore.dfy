/** The operator's side of the command queue: Enqueue as its separate statements, with other connections at work
    between them, and the release of acked rows. */
module CommandStore {
  import opened Machine
  import opened C2
  import C2Invariants

  const SCRIPT_MAX: nat := 8191

  /** The rows and the next value of the sequence behind `seq`. */
  datatype State = State(rows: Queue, next: nat)

  /** A statement of some connection: an insert, or the ack of a device. */
  datatype Op = Insert(serial: string, key: Option<string>) | Mark(serial: string, upto: nat)

  /** A conflicting insert draws a sequence value too. */
  ghost function Apply(s: State, op: Op): State {
    match op
    case Insert(serial, key) => State(Enqueue(s.rows, s.next, serial, key), s.next + 1)
    case Mark(serial, upto) => State(MarkApplied(s.rows, serial, upto), s.next)
  }

  ghost function RunOps(s: State, ops: seq<Op>): State {
    if ops == [] then s else Apply(RunOps(s, ops[..|ops| - 1]), ops[|ops| - 1])
  }

  /** Seqs are used once, and the partial unique index holds. */
  ghost predicate Ok(s: State) {
    && 0 < s.next && (forall t :: t in s.rows ==> 0 < t < s.next && s.rows[t].key != Some(""))
    && forall t, u :: t in s.rows && u in s.rows && C2Invariants.SamePending(s.rows[t], s.rows[u]) ==> t == u
  }

  ghost predicate IsTwin(rows: Queue, serial: string, key: string, t: nat) {
    t in rows && Pending(rows[t], serial, key)
  }

  ghost predicate NoTwin(rows: Queue, serial: string, key: string) {
    forall t: nat :: !IsTwin(rows, serial, key, t)
  }

  /** The ack that releases row t of a serial. */
  predicate Acks(op: Op, serial: string, t: nat) {
    op.Mark? && op.serial == serial && t <= op.upto
  }

  ghost predicate AckedBy(ops: seq<Op>, serial: string, t: nat) {
    exists i :: 0 <= i < |ops| && Acks(ops[i], serial, t)
  }

  lemma ApplyOk(s: State, op: Op)
    requires Ok(s)
    ensures Ok(Apply(s, op))
  {
    var r := Apply(s, op).rows;
    forall t, u | t in r && u in r && C2Invariants.SamePending(r[t], r[u])
      ensures t == u
    {
      if op.Insert? && t == s.next && u != t {
        assert Pending(s.rows[u], op.serial, op.key.value);
      } else if op.Insert? && u == s.next && u != t {
        assert Pending(s.rows[t], op.serial, op.key.value);
      }
    }
  }

  lemma {:induction false} RunOk(s: State, ops: seq<Op>)
    requires Ok(s)
    ensures Ok(RunOps(s, ops))
  {
    hide Ok, Apply;
    if ops != [] {
      RunOk(s, ops[..|ops| - 1]);
      ApplyOk(RunOps(s, ops[..|ops| - 1]), ops[|ops| - 1]);
    }
  }

  lemma RowUnder(s: State, op: Op, t: nat)
    requires Ok(s) && t in s.rows && s.rows[t].key.Some?
    ensures var r := Apply(s, op).rows;
      t in r && r[t] == s.rows[t].(applied := s.rows[t].applied || Acks(op, s.rows[t].serial, t))
  {
  }

  /** A keyed row is released by the acks of its own serial that reach it, and by nothing else, in every run. */
  lemma {:induction false} PendingUntilAcked(s: State, ops: seq<Op>, t: nat)
    requires Ok(s) && t in s.rows && s.rows[t].key.Some? && !s.rows[t].applied
    ensures var r := RunOps(s, ops).rows;
      t in r && r[t] == s.rows[t].(applied := AckedBy(ops, s.rows[t].serial, t))
  {
    hide Ok, Apply;
    if ops != [] {
      var n, serial := |ops| - 1, s.rows[t].serial;
      PendingUntilAcked(s, ops[..n], t);
      RunOk(s, ops[..n]);
      RowUnder(RunOps(s, ops[..n]), ops[n], t);
      AckedByLast(ops, serial, t);
    }
  }

  lemma AckedByLast(ops: seq<Op>, serial: string, t: nat)
    requires ops != []
    ensures AckedBy(ops, serial, t) <==> AckedBy(ops[..|ops| - 1], serial, t) || Acks(ops[|ops| - 1], serial, t)
  {
    var n := |ops| - 1;
    if i :| 0 <= i < n && Acks(ops[i], serial, t) {
      assert Acks(ops[..n][i], serial, t);
    }
    if i :| 0 <= i < n && Acks(ops[..n][i], serial, t) {
      assert Acks(ops[i], serial, t);
    }
  }

  /** Until it is acked, a keyed command stays the one pending row of its serial and key: submitting it again
      inserts nothing and finds this row. */
  lemma ReenqueueReturnsSameSeq(s: State, ops: seq<Op>, t: nat)
    requires Ok(s) && t in s.rows && s.rows[t].key.Some? && !s.rows[t].applied && !AckedBy(ops, s.rows[t].serial, t)
    ensures var r, serial, key := RunOps(s, ops), s.rows[t].serial, s.rows[t].key.value;
      && (forall u: nat :: IsTwin(r.rows, serial, key, u) <==> u == t)
      && Apply(r, Insert(serial, Some(key))).rows == r.rows
  {
    hide RunOps;
    PendingUntilAcked(s, ops, t);
    RunOk(s, ops);
    var r, serial, key := RunOps(s, ops).rows, s.rows[t].serial, s.rows[t].key.value;
    assert Pending(r[t], serial, key);
    forall u: nat | IsTwin(r, serial, key, u)
      ensures u == t
    {
      assert C2Invariants.SamePending(r[t], r[u]);
    }
  }

  // ---------------------------------------------------------------- the statements

  /** NoRows is the driver's error for a lookup without a result, which Enqueue passes on. */
  datatype Result = Queued(seq_: nat) | ScriptEmpty | ScriptTooLong | UnknownSerial | NoRows

  class Store {
    var rows: Queue
    var next: nat
    var devices: set<string>

    ghost function S(): State
      reads this
    {
      State(rows, next)
    }

    constructor (devices: set<string>)
      ensures Ok(S()) && rows == map[] && this.devices == devices
    {
      rows, next, this.devices := map[], 1, devices;
    }

    /** INSERT ... ON CONFLICT DO NOTHING RETURNING seq; an empty key takes the plain insert. */
    method InsertRow(serial: string, key: Option<string>) returns (seq_: Option<nat>)
      requires Ok(S())
      modifies this`rows, this`next
      ensures Ok(S()) && S() == Apply(old(S()), Insert(serial, key))
      ensures seq_.None? <==> key.Some? && key.value != "" && !NoTwin(old(rows), serial, key.value)
      ensures seq_.None? <==>
        && key.Some? && key.value != ""
        && exists t :: t in old(rows) && old(rows)[t].serial == serial && old(rows)[t].key == key && !old(rows)[t].applied
      ensures seq_.Some? ==> seq_.value == old(next) && rows == old(rows)[old(next) := Row(serial, if key == Some("") then None else key, false)]
    {
      ApplyOk(S(), Insert(serial, key));
      hide Ok;
      if key.Some? && key.value != "" && exists t :: t in rows && Pending(rows[t], serial, key.value) {
        ghost var t :| t in rows && Pending(rows[t], serial, key.value);
        assert IsTwin(rows, serial, key.value, t);
        seq_ := None;
      } else {
        rows := rows[next := Row(serial, if key == Some("") then None else key, false)];
        seq_ := Some(next);
      }
      next := next + 1;
    }

    /** SELECT seq ... AND NOT applied ORDER BY seq LIMIT 1 */
    method Lookup(serial: string, key: string) returns (seq_: Option<nat>)
      requires Ok(S())
      ensures seq_.None? <==> NoTwin(rows, serial, key)
      ensures seq_.Some? ==> IsTwin(rows, serial, key, seq_.value) && forall u: nat :: IsTwin(rows, serial, key, u) ==> seq_.value <= u
    {
      if exists t :: t in rows && Pending(rows[t], serial, key) {
        var t :| t in rows && Pending(rows[t], serial, key);
        forall u: nat | IsTwin(rows, serial, key, u)
          ensures u == t
        {
          assert C2Invariants.SamePending(rows[t], rows[u]);
        }
        assert IsTwin(rows, serial, key, t);
        seq_ := Some(t);
      } else {
        seq_ := None;
      }
    }

    /** The ack of one serial releases that serial's keyed rows, never the fleet's. */
    method MarkRows(serial: string, upto: nat)
      requires Ok(S())
      modifies this`rows
      ensures Ok(S()) && S() == Apply(old(S()), Mark(serial, upto))
      ensures rows.Keys == old(rows).Keys
      ensures forall q :: q in rows ==>
        rows[q] == old(rows)[q].(applied := old(rows)[q].applied || (old(rows)[q].serial == serial && q <= upto && old(rows)[q].key.Some?))
    {
      ApplyOk(S(), Mark(serial, upto));
      hide Ok;
      rows := MarkApplied(rows, serial, upto);
    }

    /** Whatever other connections commit in between. */
    method Others(ops: seq<Op>)
      requires Ok(S())
      modifies this`rows, this`next
      ensures Ok(S()) && S() == RunOps(old(S()), ops)
    {
      hide Ok, Apply;
      for i := 0 to |ops|
        invariant Ok(S()) && S() == RunOps(old(S()), ops[..i])
      {
        assert ops[..i + 1][..i] == ops[..i];
        match ops[i]
        case Insert(serial, key) => var seq_ := InsertRow(serial, key);
        case Mark(serial, upto) => MarkRows(serial, upto);
      }
      assert ops[..|ops|] == ops;
    }

    /** Enqueue; `between` is what other connections commit between its insert and its lookup. A fresh command
        gets the next seq. A duplicate of a pending one gets that one's seq, exactly unless it was acked in the
        gap; then it gets a newer duplicate's seq or, if there is none, an error although nothing is wrong. */
    method EnqueueCommand(serial: string, script: seq<U8>, key: Option<string>, between: seq<Op>) returns (r: Result)
      requires Ok(S())
      modifies this`rows, this`next
      ensures Ok(S())
      ensures r.ScriptEmpty? <==> script == []
      ensures r.ScriptTooLong? <==> |script| > 8191
      ensures r.UnknownSerial? <==> 0 < |script| <= 8191 && serial != "*" && serial !in devices
      ensures r.ScriptEmpty? || r.ScriptTooLong? || r.UnknownSerial? ==> S() == old(S())
      ensures (r.Queued? || r.NoRows?) && (key.None? || key.value == "" || NoTwin(old(rows), serial, key.value)) ==>
        r == Queued(old(next)) && rows == old(rows)[old(next) := Row(serial, if key == Some("") then None else key, false)]
      ensures forall t: nat :: (r.Queued? || r.NoRows?) && key.Some? && key.value != "" && IsTwin(old(rows), serial, key.value, t) ==>
        && rows == RunOps(State(old(rows), old(next) + 1), between).rows
        && (r == Queued(t) <==> !AckedBy(between, serial, t))
        && (r.NoRows? <==> NoTwin(rows, serial, key.value)) && (r.Queued? ==> IsTwin(rows, serial, key.value, r.seq_))
    {
      if script == [] { return ScriptEmpty; }
      if |script| > SCRIPT_MAX { return ScriptTooLong; }
      if serial != FLEET {
        if serial !in devices { return UnknownSerial; }
      }
      hide Ok, RunOps;
      if key.Some? && key.value != "" {
        var seq_ := InsertRow(serial, key);
        if seq_.None? {
          ghost var mid := S();
          Others(between);
          seq_ := Lookup(serial, key.value);
          SurvivorIsFound(mid, between, serial, key.value, seq_);
        }
        return if seq_.None? then NoRows else Queued(seq_.value);
      }
      var plain := InsertRow(serial, None);
      r := Queued(plain.value);
    }

    /** The lookup after the gap finds the twin that was there before it, exactly if no ack released it. */
    static lemma SurvivorIsFound(mid: State, ops: seq<Op>, serial: string, key: string, found: Option<nat>)
      requires Ok(mid)
      requires found.Some? ==> IsTwin(RunOps(mid, ops).rows, serial, key, found.value)
      requires found.None? ==> NoTwin(RunOps(mid, ops).rows, serial, key)
      ensures forall t: nat :: IsTwin(mid.rows, serial, key, t) ==> (found == Some(t) <==> !AckedBy(ops, serial, t))
    {
      hide Ok, RunOps;
      forall t: nat | IsTwin(mid.rows, serial, key, t)
        ensures found == Some(t) <==> !AckedBy(ops, serial, t)
      {
        var r := RunOps(mid, ops).rows;
        PendingUntilAcked(mid, ops, t);
        if AckedBy(ops, serial, t) {
          assert !IsTwin(r, serial, key, t);
        } else {
          ReenqueueReturnsSameSeq(mid, ops, t);
          assert IsTwin(r, serial, key, t);
          assert found.Some? ==> IsTwin(r, serial, key, found.value);
        }
      }
    }
  }

  /** The ack that releases the only twin in the gap leaves the lookup without a row. */
  lemma AckInGapLosesReply(s: State, serial: string, key: string, t: nat)
    requires Ok(s) && IsTwin(s.rows, serial, key, t)
    ensures NoTwin(RunOps(State(s.rows, s.next + 1), [Mark(serial, t)]).rows, serial, key)
  {
    var mid := State(s.rows, s.next + 1);
    assert [Mark(serial, t)][..0] == [];
    assert RunOps(mid, [Mark(serial, t)]) == Apply(mid, Mark(serial, t));
    forall u: nat | IsTwin(s.rows, serial, key, u)
      ensures u == t
    {
      assert C2Invariants.SamePending(s.rows[t], s.rows[u]);
    }
  }

  /** Such a call: a command is submitted, submitted again, and acked between the two statements of the second
      call. */
  method SubmitTwiceAckBetween() returns (r: Result)
    ensures r == NoRows
  {
    var store := new Store({"d"});
    var first := store.EnqueueCommand("d", [120], Some("k"), []);
    ghost var s, t := store.S(), first.seq_;
    assert IsTwin(s.rows, "d", "k", t);
    AckInGapLosesReply(s, "d", "k", t);
    r := store.EnqueueCommand("d", [120], Some("k"), [Mark("d", first.seq_)]);
  }
}
