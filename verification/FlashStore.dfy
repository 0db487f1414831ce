/** The flash key-value store: staged writes and an atomic rename, under system calls that may fail and power
    that may be lost after any of them. */
module FlashStore {
  import opened Machine

  type Bytes = seq<U8>

  const STORE_KEY_MAX := 64
  const STORE_VAL_MAX := 16384
  const PATH_CAP := 160
  const FS_BASE := "/fs"
  const STORE_TMPDIR := ".tmp"

  // ---------------------------------------------------------------- keys and paths

  predicate KeyChar(c: char) {
    'A' <= c <= 'Z' || 'a' <= c <= 'z' || '0' <= c <= '9' || c == '.' || c == '_' || c == '-'
  }

  ghost predicate KeyOk(key: string) {
    1 <= |key| <= STORE_KEY_MAX && key[0] != '.' && forall i :: 0 <= i < |key| ==> KeyChar(key[i])
  }

  const UPPER := "ABCDEFGHIJKLMNOPQRSTUVWXYZ"
  const LOWER := "abcdefghijklmnopqrstuvwxyz"
  const DIGITS := "0123456789"

  /** The valid keys: one to 64 characters of that alphabet, the first not a dot. */
  lemma ValidKeys(key: string)
    ensures KeyOk(key) <==> 1 <= |key| <= 64 && key[0] != '.' && forall i :: 0 <= i < |key| ==> key[i] in UPPER + LOWER + DIGITS + "._-"
    ensures KeyOk(key) ==> '/' !in key
  {
    forall c: char
      ensures KeyChar(c) <==> c in UPPER + LOWER + DIGITS + "._-"
    {
      InUpper(c);
      InLower(c);
      InDigits(c);
    }
  }

  lemma InUpper(c: char)
    ensures 'A' <= c <= 'Z' <==> c in UPPER
  {
    assert 'A' <= c <= 'Z' ==> UPPER[c as int - 'A' as int] == c;
  }

  lemma InLower(c: char)
    ensures 'a' <= c <= 'z' <==> c in LOWER
  {
    assert 'a' <= c <= 'z' ==> LOWER[c as int - 'a' as int] == c;
  }

  lemma InDigits(c: char)
    ensures '0' <= c <= '9' <==> c in DIGITS
  {
    assert '0' <= c <= '9' ==> DIGITS[c as int - '0' as int] == c;
  }

  method StoreKeyOk(key: Option<string>) returns (ok: bool)
    ensures ok <==> key.Some? && KeyOk(key.value)
  {
    if key.None? { return false; }
    var n := |key.value|;
    if n < 1 || n > STORE_KEY_MAX { return false; }
    if key.value[0] == '.' { return false; }
    for i := 0 to n
      invariant forall j :: 0 <= j < i ==> KeyChar(key.value[j])
    {
      var c := key.value[i];
      if !KeyChar(c) { return false; }
    }
    ok := true;
  }

  function FinPath(key: string): string {
    FS_BASE + "/" + key
  }

  function TmpPath(key: string): string {
    FS_BASE + "/" + STORE_TMPDIR + "/" + key
  }

  /** snprintf into a buffer of 160 bytes; a path that does not fit is refused. */
  method StorePath(staged: bool, key: string) returns (ok: bool, path: string)
    ensures path == if staged then TmpPath(key) else FinPath(key)
    ensures path == (if staged then "/fs/.tmp/" else "/fs/") + key
    ensures ok <==> 0 < |path| < 160
  {
    path := if staged then TmpPath(key) else FinPath(key);
    ok := 0 < |path| < PATH_CAP;
  }

  predicate IsStaging(path: string) {
    TmpPath("") <= path
  }

  /** No valid key can reach the staging directory, another key's file, or overflow the path buffer. */
  lemma PathsAreDisjoint(a: string, b: string)
    requires KeyOk(a)
    ensures !IsStaging(FinPath(a)) && FinPath(a) != TmpPath(b)
    ensures FinPath(a) == FinPath(b) ==> a == b
    ensures 0 < |FinPath(a)| < |TmpPath(a)| < 160
    ensures IsStaging(TmpPath(b))
  {
    assert FinPath(a)[4..] == a && FinPath(b)[4..] == b;
    assert FinPath(a)[4] == a[0] && TmpPath(b)[4] == '.' && TmpPath("")[4] == '.';
    assert a[0] != '.';
    assert TmpPath(b) == TmpPath("") + b;
  }

  // ---------------------------------------------------------------- the disk

  /** A file's bytes, and whether they have been committed to flash. */
  datatype File = File(data: Bytes, synced: bool)

  type Disk = map<string, File>

  ghost function Value(d: Disk, key: string): Option<Bytes> {
    if FinPath(key) in d then Some(d[FinPath(key)].data) else None
  }

  /** Every key's file is committed. */
  ghost predicate Committed(d: Disk) {
    forall k :: KeyOk(k) && FinPath(k) in d ==> d[FinPath(k)].synced
  }

  /** What power loss may leave of a disk: committed files as they are, uncommitted ones gone or holding
      anything at all, and nothing new. */
  ghost predicate PowerLoss(d: Disk, after: Disk) {
    && (forall p :: p in d && d[p].synced ==> p in after && after[p] == d[p])
    && (forall p :: p in after ==> p in d)
  }

  /** Power is lost in one of the steps, and leaves this of it. */
  ghost predicate Loses(steps: seq<Disk>, loss: (nat, Disk)) {
    loss.0 < |steps| && PowerLoss(steps[loss.0], loss.1)
  }

  /** A read at an offset, and whether it failed. */
  datatype ReadCall = ReadCall(off: nat, failed: bool)

  /** The reads of one call end in the probe if the last one is at the end of the buffer, or where the one before met
      the end of the file. */
  ghost predicate EndsInProbe(rs: seq<ReadCall>, cap: nat) {
    var n := |rs|;
    n > 0 && (rs[n - 1].off == cap || (n > 1 && rs[n - 2].off == rs[n - 1].off))
  }

  ghost predicate ProbeFailed(rs: seq<ReadCall>, cap: nat) {
    EndsInProbe(rs, cap) && rs[|rs| - 1].failed
  }

  ghost predicate LoopFailed(rs: seq<ReadCall>, cap: nat) {
    rs != [] && rs[|rs| - 1].failed && !EndsInProbe(rs, cap)
  }

  /** The read loop's calls so far: each at a lower offset than the next, none failed. */
  ghost predicate Before(rs: seq<ReadCall>, off: nat) {
    forall i :: 0 <= i < |rs| ==> rs[i].off < off && !rs[i].failed
  }

  /** What a read into a buffer of cap bytes comes to, if no read but perhaps the probe fails. */
  function ReadOutcome(v: Bytes, cap: nat, probeErr: bool): Option<Bytes> {
    if |v| <= cap then Some(v) else if probeErr then Some(v[..cap]) else None
  }

  /** A read passes off other bytes as the value exactly if the probe fails on a longer value; two bytes read into
      one show it. */
  lemma PrefixIffProbeFails(v: Bytes, cap: nat, probeErr: bool)
    ensures (ReadOutcome(v, cap, probeErr).Some? && ReadOutcome(v, cap, probeErr) != Some(v)) <==> probeErr && |v| > cap
    ensures ReadOutcome([1, 2], 1, true) == Some([1])
  {
    if probeErr && |v| > cap {
      assert |v[..cap]| != |v|;
    }
    var two: Bytes := [1, 2];
    assert two[..1] == [1];
  }

  /** The disks that may be seen while key is being given the value `new`. */
  ghost predicate During(before: Disk, d: Disk, key: string, new_: Option<Bytes>) {
    && Committed(d)
    && (forall k :: KeyOk(k) && k != key ==> Value(d, k) == Value(before, k))
    && (Value(d, key) == Value(before, key) || Value(d, key) == new_)
  }

  /** Nothing but staging files may differ. */
  ghost predicate SameKeys(before: Disk, d: Disk) {
    && Committed(d)
    && forall k :: KeyOk(k) ==> Value(d, k) == Value(before, k)
  }

  lemma StagingKeepsKeys(before: Disk, d: Disk, path: string, f: File)
    requires SameKeys(before, d) && IsStaging(path)
    ensures SameKeys(before, d[path := f]) && SameKeys(before, d - {path})
  {
    forall k | KeyOk(k)
      ensures FinPath(k) != path
    {
      PathsAreDisjoint(k, "");
    }
  }

  /** The rename of a committed staging file sets that key and no other. */
  lemma RenameSetsKey(before: Disk, d: Disk, key: string)
    requires SameKeys(before, d) && KeyOk(key) && TmpPath(key) in d && d[TmpPath(key)].synced
    ensures var r := d[FinPath(key) := d[TmpPath(key)]] - {TmpPath(key)};
      && Value(r, key) == Some(d[TmpPath(key)].data)
      && During(before, r, key, Some(d[TmpPath(key)].data))
  {
    PathsAreDisjoint(key, key);
    forall k | KeyOk(k)
      ensures FinPath(k) != TmpPath(key) && (FinPath(k) == FinPath(key) ==> k == key)
    {
      PathsAreDisjoint(k, key);
    }
  }

  lemma UnlinkRemovesKey(before: Disk, key: string)
    requires Committed(before) && KeyOk(key)
    ensures var r := before - {FinPath(key)};
      Value(r, key) == None && During(before, r, key, None)
  {
    forall k | KeyOk(k)
      ensures FinPath(k) == FinPath(key) ==> k == key
    {
      PathsAreDisjoint(k, key);
    }
  }

  // ---------------------------------------------------------------- system calls

  /** The littlefs surface. `trace` records every state the disk has been in; power may be lost in any. */
  class Fs {
    var disk: Disk
    var trace: seq<Disk>
    ghost var refused: seq<string>   // the unlinks that failed
    ghost var mounted: nat           // how many of them before the last mount
    ghost var readCalls: seq<ReadCall>   // every read
    ghost var faults: nat            // the calls of a write that failed: open, write, fsync, close, rename
    ghost var listings: seq<bool>    // every opendir, and whether it succeeded

    /** open(O_WRONLY | O_CREAT | O_TRUNC) */
    method OpenTrunc(path: string) returns (ok: bool)
      modifies this`disk, this`trace, this`faults
      ensures disk == if ok then old(disk)[path := File([], false)] else old(disk)
      ensures trace == old(trace) + [disk] && faults == old(faults) + if ok then 0 else 1
    {
      ok := *;
      if ok {
        disk := disk[path := File([], false)];
      }
      trace := trace + [disk];
      if !ok { faults := faults + 1; }
    }

    /** write: an error, nothing, or any non-empty prefix of the data. */
    method Write(path: string, part: Bytes) returns (w: int)
      requires path in disk && |part| > 0
      modifies this`disk, this`trace, this`faults
      ensures w <= |part|
      ensures w > 0 ==> disk == old(disk)[path := File(old(disk)[path].data + part[..w], false)]
      ensures w <= 0 ==> disk == old(disk)
      ensures trace == old(trace) + [disk] && faults == old(faults) + if w > 0 then 0 else 1
    {
      w := *;
      if w > |part| { w := |part|; }
      if w > 0 {
        disk := disk[path := File(disk[path].data + part[..w], false)];
      }
      trace := trace + [disk];
      if w <= 0 { faults := faults + 1; }
    }

    method Fsync(path: string) returns (ok: bool)
      requires path in disk
      modifies this`disk, this`trace, this`faults
      ensures disk == if ok then old(disk)[path := old(disk)[path].(synced := true)] else old(disk)
      ensures trace == old(trace) + [disk] && faults == old(faults) + if ok then 0 else 1
    {
      ok := *;
      if ok {
        disk := disk[path := disk[path].(synced := true)];
      }
      trace := trace + [disk];
      if !ok { faults := faults + 1; }
    }

    method Close() returns (ok: bool)
      modifies this`faults
      ensures faults == old(faults) + if ok then 0 else 1
    {
      ok := *;
      if !ok { faults := faults + 1; }
    }

    /** One metadata commit: it happens or it does not. */
    method Rename(from: string, to: string) returns (ok: bool)
      requires from in disk && from != to
      modifies this`disk, this`trace, this`faults
      ensures disk == if ok then old(disk)[to := old(disk)[from]] - {from} else old(disk)
      ensures trace == old(trace) + [disk] && faults == old(faults) + if ok then 0 else 1
    {
      ok := *;
      if ok {
        disk := disk[to := disk[from]] - {from};
      }
      trace := trace + [disk];
      if !ok { faults := faults + 1; }
    }

    method Unlink(path: string) returns (ok: bool)
      modifies this`disk, this`trace, this`refused
      ensures ok ==> path in old(disk)
      ensures disk == if ok then old(disk) - {path} else old(disk)
      ensures refused == if ok then old(refused) else old(refused) + [path]
      ensures trace == old(trace) + [disk]
    {
      ok := *;
      ok := ok && path in disk;
      if ok {
        disk := disk - {path};
      } else {
        refused := refused + [path];
      }
      trace := trace + [disk];
    }

    /** read at an offset: an error, the end of the file, or any non-empty piece of what is left. */
    method Read(path: string, off: nat, cap: nat) returns (r: int, piece: Bytes)
      requires path in disk && off <= |disk[path].data| && cap > 0
      modifies this`readCalls
      ensures readCalls == old(readCalls) + [ReadCall(off, r < 0)]
      ensures r == 0 <==> off == |disk[path].data| && r >= 0
      ensures r > 0 ==> r <= cap && off + r <= |disk[path].data| && piece == disk[path].data[off..off + r]
    {
      r := *;
      piece := [];
      var left := |disk[path].data| - off;
      if r >= 0 {
        if left == 0 {
          r := 0;
        } else {
          if r == 0 { r := 1; }
          if r > left { r := left; }
          if r > cap { r := cap; }
          piece := disk[path].data[off..off + r];
        }
      }
      readCalls := readCalls + [ReadCall(off, r < 0)];
    }

    // -------------------------------------------------------------- the store

    ghost predicate Seen(from: nat, before: Disk, key: string, new_: Option<Bytes>)
      reads this
    {
      from <= |trace| && forall i :: from <= i < |trace| ==> During(before, trace[i], key, new_)
    }

    /** Every state since `from` shows only staging changes. */
    ghost predicate Quiet(from: nat, before: Disk)
      reads this
    {
      SameKeys(before, disk) && from <= |trace| && forall i :: from <= i < |trace| ==> SameKeys(before, trace[i])
    }

    /** Remove the staging file after a failure. */
    method Abandon(tmp: string, ghost from: nat, ghost before: Disk)
      requires Quiet(from, before) && IsStaging(tmp)
      modifies this`disk, this`trace, this`refused
      ensures Quiet(from, before) && old(refused) <= refused
    {
      StagingKeepsKeys(before, disk, tmp, File([], false));
      var gone := Unlink(tmp);
    }

    /** The write loop into the staging file: short writes are continued. */
    method WriteAll(tmp: string, val: Bytes, ghost from: nat, ghost before: Disk) returns (ok: bool)
      requires Quiet(from, before) && IsStaging(tmp) && tmp in disk && disk[tmp].data == []
      modifies this`disk, this`trace, this`faults
      ensures Quiet(from, before) && tmp in disk && (ok ==> disk[tmp].data == val)
      ensures faults >= old(faults) && (ok <==> faults == old(faults))
    {
      var left := val;
      while left != []
        invariant Quiet(from, before) && tmp in disk && disk[tmp].data + left == val && faults == old(faults)
        decreases |left|
      {
        ghost var d := disk;
        var w := Write(tmp, left);
        StagingKeepsKeys(before, d, tmp, disk[tmp]);
        assert disk == d[tmp := disk[tmp]];
        if w <= 0 {
          return false;
        }
        assert d[tmp].data + left[..w] + left[w..] == d[tmp].data + left;
        left := left[w..];
      }
      ok := true;
    }

    /** Write, sync and close the staging file; on failure remove it. */
    method Stage(tmp: string, val: Bytes, ghost from: nat, ghost before: Disk) returns (ok: bool)
      requires Quiet(from, before) && IsStaging(tmp)
      modifies this`disk, this`trace, this`refused, this`faults
      ensures Quiet(from, before) && (ok ==> tmp in disk && disk[tmp] == File(val, true)) && old(refused) <= refused
      ensures faults >= old(faults) && (ok <==> faults == old(faults))
    {
      StagingKeepsKeys(before, disk, tmp, File([], false));
      ok := OpenTrunc(tmp);
      if !ok { return; }
      ok := WriteAll(tmp, val, from, before);
      if !ok {
        var closed := Close();
        Abandon(tmp, from, before);
        return;
      }
      StagingKeepsKeys(before, disk, tmp, File(val, true));
      ok := Fsync(tmp);
      if !ok {
        var closed := Close();
        Abandon(tmp, from, before);
        return;
      }
      ok := Close();
      if !ok {
        Abandon(tmp, from, before);
      }
    }

    /** Atomic set: whatever call fails and wherever power is lost, the disk shows the old or the new value. A valid
        key and a value of permitted size are refused only if a call fails. */
    method StoreKvSet(key: Option<string>, val: Bytes) returns (ok: bool)
      requires Committed(disk)
      modifies this`disk, this`trace, this`refused, this`faults
      ensures faults >= old(faults)
      ensures ok <==> key.Some? && KeyOk(key.value) && |val| <= 16384 && faults == old(faults)
      ensures ok ==> Value(disk, key.value) == Some(val) && During(old(disk), disk, key.value, Some(val))
      ensures !ok ==> SameKeys(old(disk), disk)
      ensures old(refused) <= refused
      ensures key.Some? && KeyOk(key.value) ==> Seen(|old(trace)|, old(disk), key.value, Some(val))
      ensures !(key.Some? && KeyOk(key.value)) ==> trace == old(trace)
    {
      hide KeyOk, FinPath, TmpPath, IsStaging;
      var valid := StoreKeyOk(key);
      if !valid || |val| > STORE_VAL_MAX { return false; }
      var k := key.value;
      PathsAreDisjoint(k, k);
      var fits, tmp := StorePath(true, k);
      if !fits { return false; }
      var fin;
      fits, fin := StorePath(false, k);
      if !fits { return false; }
      ok := Stage(tmp, val, |trace|, disk);
      if !ok { return; }
      RenameSetsKey(old(disk), disk, k);
      ok := Rename(tmp, fin);
      if !ok {
        Abandon(tmp, |old(trace)|, old(disk));
      }
    }

    method StoreKvDel(key: Option<string>) returns (ok: bool)
      requires Committed(disk)
      modifies this`disk, this`trace, this`refused
      ensures ok <==> key.Some? && KeyOk(key.value) && refused == old(refused)
      ensures ok ==> Value(old(disk), key.value).Some? && Value(disk, key.value) == None
      ensures ok ==> During(old(disk), disk, key.value, None)
      ensures !ok ==> SameKeys(old(disk), disk)
      ensures old(refused) <= refused
      ensures key.Some? ==> Seen(|old(trace)|, old(disk), key.value, None)
    {
      var valid := StoreKeyOk(key);
      if !valid { return false; }
      PathsAreDisjoint(key.value, "");
      var fits, fin := StorePath(false, key.value);
      if !fits { return false; }
      UnlinkRemovesKey(disk, key.value);
      ok := Unlink(fin);
    }

    /** opendir: the directory can be listed, or not. */
    method Opendir() returns (ok: bool)
      modifies this`listings
      ensures listings == old(listings) + [ok]
    {
      ok := *;
      listings := listings + [ok];
    }

    /** The mount-time sweep, if the staging directory can be listed, empties it but for files whose unlink
        failed. */
    method GcTmp() returns (listed: bool)
      requires Committed(disk)
      modifies this`disk, this`trace, this`refused, this`listings
      ensures listings == old(listings) + [listed]
      ensures SameKeys(old(disk), disk)
      ensures old(refused) <= refused
      ensures listed ==> forall p :: p in disk && IsStaging(p) ==> p in refused[|old(refused)|..]
      ensures forall i :: |old(trace)| <= i < |trace| ==> SameKeys(old(disk), trace[i])
    {
      listed := Opendir();
      if !listed { return; }
      var entries := set p | p in disk && IsStaging(p);
      while entries != {}
        invariant SameKeys(old(disk), disk) && old(refused) <= refused && listings == old(listings) + [listed]
        invariant forall p :: p in entries ==> IsStaging(p)
        invariant forall p :: p in disk && IsStaging(p) ==> p in refused[|old(refused)|..] || p in entries
        invariant |old(trace)| <= |trace| && forall i :: |old(trace)| <= i < |trace| ==> SameKeys(old(disk), trace[i])
        decreases |entries|
      {
        var p :| p in entries;
        StagingKeepsKeys(old(disk), disk, p, File([], false));
        ghost var was := refused[|old(refused)|..];
        var ok := Unlink(p);
        assert refused[|old(refused)|..] == if ok then was else was + [p];
        entries := entries - {p};
      }
    }

    method StoreKvSize(key: Option<string>) returns (size: int)
      ensures size == if key.Some? && KeyOk(key.value) && Value(disk, key.value).Some? then |Value(disk, key.value).value| else -1
    {
      var valid := StoreKeyOk(key);
      if !valid { return -1; }
      PathsAreDisjoint(key.value, "");
      var fits, fin := StorePath(false, key.value);
      if !fits { return -1; }
      size := if fin in disk then |disk[fin].data| else -1;
    }

    /** The read loop and the one-byte probe behind it. It yields what fits; a value longer than the buffer is
        refused, unless the probe itself fails: then its prefix is passed off as the value. */
    method StoreKvRead(key: Option<string>, cap: nat) returns (ok: bool, buf: Bytes)
      modifies this`readCalls
      ensures old(readCalls) <= readCalls
      ensures ok ==> key.Some? && KeyOk(key.value) && Value(disk, key.value).Some?
      ensures ok ==> Some(buf) == ReadOutcome(Value(disk, key.value).value, cap, ProbeFailed(readCalls[|old(readCalls)|..], cap))
      ensures ok <==>
        && key.Some? && KeyOk(key.value) && Value(disk, key.value).Some?
        && !LoopFailed(readCalls[|old(readCalls)|..], cap)
        && (ProbeFailed(readCalls[|old(readCalls)|..], cap) || |Value(disk, key.value).value| <= cap)
    {
      ok, buf := false, [];
      var valid := StoreKeyOk(key);
      if !valid { return; }
      PathsAreDisjoint(key.value, "");
      var fits, fin := StorePath(false, key.value);
      if !fits { return; }
      if fin !in disk { return; }
      ghost var v := disk[fin].data;
      ghost var mine: seq<ReadCall> := [];
      while |buf| < cap
        invariant |buf| <= cap && |buf| <= |v| && buf == v[..|buf|]
        invariant readCalls == old(readCalls) + mine && Before(mine, |buf|)
        decreases cap - |buf|
      {
        var r, piece := Read(fin, |buf|, cap - |buf|);
        mine := mine + [ReadCall(|buf|, r < 0)];
        if r < 0 {
          return;
        }
        if r == 0 { break; }
        buf := buf + piece;
      }
      var more, extra := Read(fin, |buf|, 1);
      mine := mine + [ReadCall(|buf|, more < 0)];
      assert v[..|v|] == v;
      if more > 0 { return; }
      ok := true;
    }

    /** The script binding: a buffer of the file's own size, so what it returns is the whole value; and it returns
        every value of permitted size, exactly unless a read of it fails. */
    method StoreGet(key: Option<string>) returns (r: Option<Bytes>)
      modifies this`readCalls
      ensures old(readCalls) <= readCalls
      ensures r.Some? ==> key.Some? && KeyOk(key.value) && r == Value(disk, key.value)
      ensures r.Some? <==>
        && key.Some? && KeyOk(key.value) && Value(disk, key.value).Some? && |Value(disk, key.value).value| <= STORE_VAL_MAX
        && !LoopFailed(readCalls[|old(readCalls)|..], |Value(disk, key.value).value|)
    {
      var sz := StoreKvSize(key);
      if sz < 0 || sz > STORE_VAL_MAX { return None; }
      var ok, buf := StoreKvRead(key, sz);
      r := if ok then Some(buf) else None;
    }

    // -------------------------------------------------------------- a whole life cycle

    /** Remount after power loss: the disk is what the loss left, and the sweep runs. */
    method Remount(after: Disk) returns (listed: bool)
      requires Committed(after)
      modifies this`disk, this`trace, this`refused, this`listings, this`mounted
      ensures SameKeys(after, disk) && old(refused) <= refused && mounted == |old(refused)|
      ensures listings == old(listings) + [listed]
      ensures listed ==> forall p :: p in disk && IsStaging(p) ==> p in refused[mounted..]
    {
      mounted := |refused|;
      disk := after;
      listed := GcTmp();
    }

    /** A set (of the given value) or a delete (none), power loss at any step of it as `lose` picks step and
        outcome, the remount with its sweep, and a read: the touched key has exactly its old or its new value, every
        other key its old one, the sweep, if the directory can be listed, leaves in staging only what it was refused
        to unlink, and the read returns the whole value, exactly unless a read of it fails. */
    method AcrossPowerLoss(key: string, to: Option<Bytes>, lose: seq<Disk> -> (nat, Disk))
      returns (r: Option<Bytes>, listed: bool)
      requires Committed(disk) && KeyOk(key) && forall steps: seq<Disk> :: steps != [] ==> Loses(steps, lose(steps))
      modifies this
      ensures Committed(disk)
      ensures Value(disk, key) == old(Value(disk, key)) || Value(disk, key) == to
      ensures forall k :: KeyOk(k) && k != key ==> Value(disk, k) == old(Value(disk, k))
      ensures listings == old(listings) + [listed] && |old(refused)| <= mounted <= |refused|
      ensures listed ==> forall p :: p in disk && IsStaging(p) ==> p in refused[mounted..]
      ensures old(readCalls) <= readCalls && (r.Some? ==> r == Value(disk, key))
      ensures r.Some? <==>
        && Value(disk, key).Some? && |Value(disk, key).value| <= STORE_VAL_MAX
        && !LoopFailed(readCalls[|old(readCalls)|..], |Value(disk, key).value|)
    {
      hide KeyOk, FinPath, TmpPath, IsStaging, Committed, PowerLoss;
      var first, from := disk, |trace|;
      StartsAsBefore(first, key, to);
      var done;
      if to.Some? {
        done := StoreKvSet(Some(key), to.value);
      } else {
        done := StoreKvDel(Some(key));
      }
      var steps := [first] + trace[from..];
      var (at, after) := lose(steps);
      assert Loses(steps, (at, after));
      StepIsDuring(first, trace, from, key, to, at);
      PowerLossLeavesOldOrNew(first, steps[at], after, key, to);
      listed := Remount(after);
      RemountKeepsValues(first, after, disk, key, to);
      r := StoreGet(Some(key));
    }

    static lemma StartsAsBefore(d: Disk, key: string, to: Option<Bytes>)
      requires Committed(d)
      ensures During(d, d, key, to)
    {
    }

    static lemma StepIsDuring(first: Disk, trace: seq<Disk>, from: nat, key: string, to: Option<Bytes>, at: nat)
      requires from <= |trace| && at < 1 + |trace[from..]| && During(first, first, key, to)
      requires forall i :: from <= i < |trace| ==> During(first, trace[i], key, to)
      ensures During(first, ([first] + trace[from..])[at], key, to)
    {
      hide During;
    }
  }

  // ---------------------------------------------------------------- power loss and remount

  /** After power loss in any state seen during a set or delete, every other key has its old value and the
      touched key its old or its new one; and the disk is fit for the next operation. */
  lemma PowerLossLeavesOldOrNew(before: Disk, d: Disk, after: Disk, key: string, new_: Option<Bytes>)
    requires KeyOk(key) && During(before, d, key, new_) && PowerLoss(d, after)
    ensures Committed(after) && During(before, after, key, new_)
  {
    assert forall k :: KeyOk(k) ==> Value(after, k) == Value(d, k) by {
      forall k | KeyOk(k)
        ensures Value(after, k) == Value(d, k)
      {
        if FinPath(k) in d {
          assert d[FinPath(k)].synced;
        }
      }
    }
    forall k | KeyOk(k) && FinPath(k) in after
      ensures after[FinPath(k)].synced
    {
      assert FinPath(k) in d && d[FinPath(k)].synced;
    }
  }

  /** The sweep that follows a remount changes no value. */
  lemma RemountKeepsValues(before: Disk, after: Disk, swept: Disk, key: string, new_: Option<Bytes>)
    requires KeyOk(key) && During(before, after, key, new_) && SameKeys(after, swept)
    ensures During(before, swept, key, new_)
  {
  }

  /** The fsync before the rename is needed: renaming an uncommitted file lets power loss replace the value
      with anything. */
  lemma RenameWithoutSyncIsUnsafe(key: string, old_: Bytes, new_: Bytes, junk: Bytes)
    requires KeyOk(key) && junk != old_ && junk != new_
    ensures exists d: Disk, after: Disk ::
      Value(d, key) == Some(new_) && PowerLoss(d, after) && Value(after, key) == Some(junk)
  {
    var d: Disk := map[FinPath(key) := File(new_, false)];
    var after: Disk := map[FinPath(key) := File(junk, true)];
    assert PowerLoss(d, after) && Value(d, key) == Some(new_) && Value(after, key) == Some(junk);
  }
}
