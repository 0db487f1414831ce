/** The RTC-RAM key-value store: a flat byte buffer of `[keylen][key][vallen LE16][val]` entries. */
module Rtc {
  import opened Machine

  const RTC_KEY_MAX := 32
  const RTC_VAL_MAX := 64

  // ---------------------------------------------------------------- entries and their bytes

  datatype Entry = Entry(key: seq<U8>, val: seq<U8>)

  function Size(e: Entry): nat {
    3 + |e.key| + |e.val|
  }

  ghost predicate EntryOk(e: Entry) {
    1 <= |e.key| <= RTC_KEY_MAX && |e.val| <= RTC_VAL_MAX
  }

  function EntryBytes(e: Entry): (s: seq<U8>)
    ensures |s| == Size(e)
  {
    [|e.key| % 0x100] + e.key + [|e.val| % 0x100, |e.val| / 0x100 % 0x100] + e.val
  }

  /** Distinct keys, every length in range. */
  ghost predicate WellFormed(es: seq<Entry>) {
    && (forall i :: 0 <= i < |es| ==> EntryOk(es[i]))
    && (forall i, j :: 0 <= i < j < |es| ==> es[i].key != es[j].key)
  }

  ghost function Encode(es: seq<Entry>): seq<U8> {
    if es == [] then [] else Encode(es[..|es| - 1]) + EntryBytes(es[|es| - 1])
  }

  lemma ConcatAssociative<T>(a: seq<T>, b: seq<T>, c: seq<T>)
    ensures (a + b) + c == a + (b + c)
  {
  }

  lemma {:induction false} EncodeConcat(a: seq<Entry>, b: seq<Entry>)
    ensures Encode(a + b) == Encode(a) + Encode(b)
  {
    hide EntryBytes;
    if b == [] {
      assert a + b == a;
    } else {
      var n := |b| - 1;
      EncodeConcat(a, b[..n]);
      assert (a + b)[..|a + b| - 1] == a + b[..n];
      ConcatAssociative(Encode(a), Encode(b[..n]), EntryBytes(b[n]));
    }
  }

  lemma EncodeOne(e: Entry)
    ensures Encode([e]) == EntryBytes(e)
  {
    assert [e][..0] == [];
  }

  lemma EncodeAround(es: seq<Entry>, i: nat)
    requires i < |es|
    ensures Encode(es) == Encode(es[..i]) + EntryBytes(es[i]) + Encode(es[i + 1..])
  {
    hide EntryBytes, Encode;
    SplitAround(es, i);
    EncodeConcat(es[..i], [es[i]]);
    EncodeConcat(es[..i] + [es[i]], es[i + 1..]);
    EncodeOne(es[i]);
  }

  lemma SplitAround<T>(s: seq<T>, i: nat)
    requires i < |s|
    ensures s == s[..i] + [s[i]] + s[i + 1..]
  {
  }

  // ---------------------------------------------------------------- the scan, on any bytes at all

  datatype Scan = Absent | Found(off: nat, size: nat) | Stuck(off: nat)

  /** One round of the scan loop at offset o: it ends, or moves to another offset. */
  datatype Round = Done(result: Scan) | Next(o: nat)

  function ScanRound(buf: seq<U8>, len: nat, key: seq<U8>, o: nat): (r: Round)
    requires len <= |buf| && len < 0x1_0000
    ensures r.Next? ==> o <= r.o <= len
    ensures r.Done? ==> !r.result.Stuck?
  {
    if o + 3 > len then Done(Absent)
    else
      var kl: int := buf[o];
      if o + 1 + kl + 2 > len then Done(Absent)
      else
        var vl: int := (buf[o + 1 + kl] as int) + 0x100 * (buf[o + 1 + kl + 1] as int);
        var entry := (1 + kl + 2 + vl) % 0x1_0000;
        if o + entry > len then Done(Absent)
        else if kl == |key| && buf[o + 1..o + 1 + kl] == key then Done(Found(o, entry))
        else Next(o + entry)
  }

  /** What the scan from offset o comes to. An entry whose 16-bit size is zero sends it back to itself. */
  function ScanFrom(buf: seq<U8>, len: nat, key: seq<U8>, o: nat): Scan
    requires len <= |buf| && len < 0x1_0000
    decreases len - o
  {
    match ScanRound(buf, len, key, o)
    case Done(r) => r
    case Next(p) => if p == o then Stuck(o) else ScanFrom(buf, len, key, p)
  }

  /** The loop is still going after n rounds. */
  ghost predicate StillScanning(buf: seq<U8>, len: nat, key: seq<U8>, o: nat, n: nat)
    requires len <= |buf| && len < 0x1_0000
    decreases n
  {
    n == 0 || (var r := ScanRound(buf, len, key, o); r.Next? && StillScanning(buf, len, key, r.o, n - 1))
  }

  lemma {:induction false} StuckNeverEnds(buf: seq<U8>, len: nat, key: seq<U8>, o: nat, n: nat)
    requires len <= |buf| && len < 0x1_0000 && ScanFrom(buf, len, key, o).Stuck?
    ensures StillScanning(buf, len, key, o, n)
    decreases n
  {
    if n > 0 {
      StuckNeverEnds(buf, len, key, ScanRound(buf, len, key, o).o, n - 1);
    }
  }

  lemma {:induction false} NotStuckEnds(buf: seq<U8>, len: nat, key: seq<U8>, o: nat)
    requires len <= |buf| && len < 0x1_0000 && !ScanFrom(buf, len, key, o).Stuck?
    ensures !StillScanning(buf, len, key, o, (if o <= len then len - o else 0) + 1)
    decreases len - o
  {
    var r := ScanRound(buf, len, key, o);
    if r.Next? {
      NotStuckEnds(buf, len, key, r.o);
      ScanningShorter(buf, len, key, r.o, len - r.o + 1, len - o);
    }
  }

  lemma {:induction false} ScanningShorter(buf: seq<U8>, len: nat, key: seq<U8>, o: nat, m: nat, n: nat)
    requires len <= |buf| && len < 0x1_0000 && m <= n
    ensures StillScanning(buf, len, key, o, n) ==> StillScanning(buf, len, key, o, m)
    decreases m
  {
    var r := ScanRound(buf, len, key, o);
    if m > 0 && r.Next? {
      ScanningShorter(buf, len, key, r.o, m - 1, n - 1);
    }
  }

  /** Exactly when the scan loop runs forever: it reaches an entry whose size wraps to zero. */
  lemma ScanDivergesIffStuck(buf: seq<U8>, len: nat, key: seq<U8>)
    requires len <= |buf| && len < 0x1_0000
    ensures (forall n: nat :: StillScanning(buf, len, key, 0, n)) <==> ScanFrom(buf, len, key, 0).Stuck?
  {
    if ScanFrom(buf, len, key, 0).Stuck? {
      forall n: nat
        ensures StillScanning(buf, len, key, 0, n)
      {
        StuckNeverEnds(buf, len, key, 0, n);
      }
    } else {
      NotStuckEnds(buf, len, key, 0);
    }
  }

  /** At o there is a complete entry of another key whose lengths add up to a size of exactly 65536. */
  predicate WrapsAt(buf: seq<U8>, len: nat, key: seq<U8>, o: nat)
    requires len <= |buf| && len < 0x1_0000
  {
    && o + 3 <= len
    && var kl: int := buf[o];
    && o + 1 + kl + 2 <= len
    && (kl != |key| || buf[o + 1..o + 1 + kl] != key)
    && var vl: int := (buf[o + 1 + kl] as int) + 0x100 * (buf[o + 1 + kl + 1] as int);
       kl + vl + 3 == 0x1_0000
  }

  /** Those are exactly the offsets that a round sends back to themselves. */
  lemma RoundRepeatsIffWraps(buf: seq<U8>, len: nat, key: seq<U8>, o: nat)
    requires len <= |buf| && len < 0x1_0000
    ensures ScanRound(buf, len, key, o) == Next(o) <==> WrapsAt(buf, len, key, o)
  {
  }

  /** A scan that diverges does so at such an entry, so a buffer without one is safe to scan. */
  lemma {:induction false} StuckAtWrap(buf: seq<U8>, len: nat, key: seq<U8>, o: nat)
    requires len <= |buf| && len < 0x1_0000 && ScanFrom(buf, len, key, o).Stuck?
    ensures WrapsAt(buf, len, key, ScanFrom(buf, len, key, o).off)
    decreases len - o
  {
    hide ScanRound, WrapsAt;
    RoundRepeatsIffWraps(buf, len, key, o);
    var r := ScanRound(buf, len, key, o);
    if r.o != o {
      StuckAtWrap(buf, len, key, r.o);
    }
  }

  /** Three bytes of noise are enough: key length 0 and value length 65533 make a size of 65536. */
  lemma NoiseCanStall(key: seq<U8>)
    requires 1 <= |key| <= RTC_KEY_MAX
    ensures ScanFrom([0, 0xFD, 0xFF], 3, key, 0) == Stuck(0)
  {
    assert ScanRound([0, 0xFD, 0xFF], 3, key, 0) == Next(0);
  }

  // ---------------------------------------------------------------- the scan, on encoded entries

  ghost function IndexOf(es: seq<Entry>, key: seq<U8>): (i: nat)
    ensures i <= |es|
    ensures i < |es| ==> es[i].key == key
    ensures forall j :: 0 <= j < i ==> es[j].key != key
  {
    if es == [] then 0
    else if es[0].key == key then 0
    else 1 + IndexOf(es[1..], key)
  }

  ghost predicate HoldsEntries(buf: seq<U8>, len: nat, es: seq<Entry>) {
    && (forall j :: 0 <= j < |es| ==> EntryOk(es[j]))
    && len <= |buf| && len < 0x1_0000 && buf[..len] == Encode(es)
  }

  /** Reading an entry's fields back from its bytes. */
  lemma ReadEntry(buf: seq<U8>, o: nat, e: Entry)
    requires EntryOk(e) && o + Size(e) <= |buf| && buf[o..o + Size(e)] == EntryBytes(e)
    ensures buf[o] == |e.key| && buf[o + 1..o + 1 + |e.key|] == e.key
    ensures buf[o + 1 + |e.key|] == |e.val| && buf[o + 1 + |e.key| + 1] == 0
    ensures buf[o + 1 + |e.key| + 2..o + Size(e)] == e.val
  {
    var b := EntryBytes(e);
    assert forall k :: 0 <= k < |b| ==> buf[o + k] == buf[o..o + Size(e)][k] == b[k];
    assert b[1..1 + |e.key|] == e.key;
    assert b[1 + |e.key|] == |e.val| && b[1 + |e.key| + 1] == 0;
    assert b[1 + |e.key| + 2..] == e.val;
  }

  /** The converse: bytes with these fields are the entry's bytes. */
  lemma FieldsMakeEntry(buf: seq<U8>, o: nat, e: Entry)
    requires EntryOk(e) && o + Size(e) <= |buf| && buf[o] == |e.key| && buf[o + 1..o + 1 + |e.key|] == e.key
    requires buf[o + 1 + |e.key|] == |e.val| && buf[o + 1 + |e.key| + 1] == 0
    requires buf[o + 1 + |e.key| + 2..o + Size(e)] == e.val
    ensures buf[o..o + Size(e)] == EntryBytes(e)
  {
    var p := o + 1 + |e.key|;
    assert buf[o..o + Size(e)] == [buf[o]] + buf[o + 1..p] + [buf[p], buf[p + 1]] + buf[p + 2..o + Size(e)];
  }

  lemma EntryPlace(buf: seq<U8>, len: nat, es: seq<Entry>, i: nat)
    requires HoldsEntries(buf, len, es) && i < |es|
    ensures |Encode(es[..i])| + Size(es[i]) == |Encode(es[..i + 1])| <= len
    ensures buf[|Encode(es[..i])|..|Encode(es[..i + 1])|] == EntryBytes(es[i])
  {
    hide EntryBytes;
    EncodeAround(es, i);
    assert es[..i + 1][..i] == es[..i];
    var o, n := |Encode(es[..i])|, |Encode(es[..i + 1])|;
    assert Encode(es)[o..n] == EntryBytes(es[i]);
    assert buf[o..n] == buf[..len][o..n];
  }

  lemma RoundAtEntry(buf: seq<U8>, len: nat, key: seq<U8>, es: seq<Entry>, i: nat)
    requires HoldsEntries(buf, len, es) && i < |es|
    ensures ScanRound(buf, len, key, |Encode(es[..i])|) ==
      if es[i].key == key then Done(Found(|Encode(es[..i])|, Size(es[i]))) else Next(|Encode(es[..i + 1])|)
    ensures |Encode(es[..i])| + Size(es[i]) == |Encode(es[..i + 1])| <= len
  {
    hide EntryBytes, Encode, ScanRound;
    EntryPlace(buf, len, es, i);
    ReadEntry(buf, |Encode(es[..i])|, es[i]);
    RoundOnEntry(buf, len, key, |Encode(es[..i])|, es[i]);
  }

  lemma RoundOnEntry(buf: seq<U8>, len: nat, key: seq<U8>, o: nat, e: Entry)
    requires EntryOk(e) && len <= |buf| && len < 0x1_0000 && o + Size(e) <= len
    requires buf[o] == |e.key| && buf[o + 1..o + 1 + |e.key|] == e.key
    requires buf[o + 1 + |e.key|] == |e.val| && buf[o + 1 + |e.key| + 1] == 0
    ensures ScanRound(buf, len, key, o) == if e.key == key then Done(Found(o, Size(e))) else Next(o + Size(e))
  {
  }

  /** On a well-formed buffer the scan finds the key's entry, or reports it absent, and never stalls. */
  lemma {:induction false} ScanFindsIndex(buf: seq<U8>, len: nat, key: seq<U8>, es: seq<Entry>, i: nat)
    requires HoldsEntries(buf, len, es) && i <= IndexOf(es, key)
    ensures ScanFrom(buf, len, key, |Encode(es[..i])|) ==
      if IndexOf(es, key) == |es| then Absent else Found(|Encode(es[..IndexOf(es, key)])|, Size(es[IndexOf(es, key)]))
    decreases |es| - i
  {
    if i == |es| {
      assert es[..i] == es;
    } else {
      RoundAtEntry(buf, len, key, es, i);
      if es[i].key != key {
        ScanFindsIndex(buf, len, key, es, i + 1);
      }
    }
  }

  // ---------------------------------------------------------------- a list of entries as a map

  ghost function ToMap(es: seq<Entry>): map<seq<U8>, seq<U8>> {
    if es == [] then map[] else ToMap(es[..|es| - 1])[es[|es| - 1].key := es[|es| - 1].val]
  }

  /** Drop the key's entry, keeping the order of the others. */
  ghost function Drop(es: seq<Entry>, key: seq<U8>): seq<Entry> {
    var i := IndexOf(es, key);
    if i < |es| then es[..i] + es[i + 1..] else es
  }

  lemma {:induction false} ToMapLookup(es: seq<Entry>, key: seq<U8>)
    requires WellFormed(es)
    ensures key in ToMap(es) <==> IndexOf(es, key) < |es|
    ensures key in ToMap(es) ==> ToMap(es)[key] == es[IndexOf(es, key)].val
  {
    if es != [] {
      var n := |es| - 1;
      ToMapLookup(es[..n], key);
      var i, j := IndexOf(es, key), IndexOf(es[..n], key);
      if j < n {
        assert es[j].key == key && es[i].key == key;
      }
      assert forall k :: 0 <= k < n ==> es[..n][k].key == es[k].key;
    }
  }

  lemma {:induction false} ToMapConcat(a: seq<Entry>, b: seq<Entry>)
    ensures ToMap(a + b) == ToMap(a) + ToMap(b)
  {
    if b == [] {
      assert a + b == a;
    } else {
      var n := |b| - 1;
      ToMapConcat(a, b[..n]);
      assert (a + b)[..|a + b| - 1] == a + b[..n];
      assert ToMap(a + b) == ToMap(a + b[..n])[b[n].key := b[n].val];
      hide ToMap;
      UpdateRight(ToMap(a), ToMap(b[..n]), b[n].key, b[n].val);
    }
  }

  lemma UpdateRight(m: map<seq<U8>, seq<U8>>, n: map<seq<U8>, seq<U8>>, k: seq<U8>, v: seq<U8>)
    ensures (m + n)[k := v] == m + n[k := v]
  {
  }

  lemma {:induction false} ToMapKeys(es: seq<Entry>, key: seq<U8>)
    requires forall i :: 0 <= i < |es| ==> es[i].key != key
    ensures key !in ToMap(es)
  {
    if es != [] {
      ToMapKeys(es[..|es| - 1], key);
    }
  }

  lemma ToMapOne(e: Entry)
    ensures ToMap([e]) == map[e.key := e.val]
  {
    assert [e][..0] == [];
  }

  lemma DropWellFormed(es: seq<Entry>, key: seq<U8>)
    requires WellFormed(es)
    ensures WellFormed(Drop(es, key))
    ensures forall j :: 0 <= j < |Drop(es, key)| ==> Drop(es, key)[j].key != key
  {
    var i := IndexOf(es, key);
    if i < |es| {
      var d := Drop(es, key);
      assert forall j :: 0 <= j < |d| ==> d[j] == if j < i then es[j] else es[j + 1];
    }
  }

  lemma DropIsRemoval(es: seq<Entry>, key: seq<U8>)
    requires WellFormed(es)
    ensures ToMap(Drop(es, key)) == ToMap(es) - {key}
  {
    hide IndexOf, ToMap;
    var i := IndexOf(es, key);
    if i < |es| {
      var a, b, mid := es[..i], es[i + 1..], [es[i]];
      ToMapConcat(a + mid, b);
      ToMapConcat(a, mid);
      ToMapConcat(a, b);
      assert es == a + mid + b;
      ToMapOne(es[i]);
      ToMapKeys(a, key);
      ToMapKeys(b, key);
    } else {
      ToMapKeys(es, key);
    }
  }

  lemma DropLength(es: seq<Entry>, key: seq<U8>)
    requires WellFormed(es)
    ensures |Encode(Drop(es, key))| == |Encode(es)| - OldSize(es, key)
  {
    hide EntryBytes, IndexOf, Encode;
    var i := IndexOf(es, key);
    if i < |es| {
      EncodeAround(es, i);
      EncodeConcat(es[..i], es[i + 1..]);
    }
  }

  ghost function OldSize(es: seq<Entry>, key: seq<U8>): nat {
    var i := IndexOf(es, key);
    if i < |es| then Size(es[i]) else 0
  }

  // ---------------------------------------------------------------- the reference: a finite map with a byte budget

  datatype Op =
    | Set(key: CString, val: seq<U8>)
    | Get(key: CString)
    | Has(key: CString)
    | Del(key: CString)

  datatype Reply = Flag(ok: bool) | Value(val: Option<seq<U8>>)

  predicate KeyOk(key: CString) {
    key.Str? && 1 <= |key.chars| <= RTC_KEY_MAX
  }

  /** The bytes a map needs: every entry costs its key, its value and three bytes of framing. */
  ghost function MapBytes(m: map<seq<U8>, seq<U8>>): nat
    decreases |m|
  {
    if m == map[] then 0
    else
      var k :| k in m;
      3 + |k| + |m[k]| + MapBytes(m - {k})
  }

  /** The cost does not depend on the order in which entries are counted. */
  lemma {:induction false} MapBytesOf(m: map<seq<U8>, seq<U8>>, k: seq<U8>)
    requires k in m
    ensures MapBytes(m) == 3 + |k| + |m[k]| + MapBytes(m - {k})
    decreases |m|
  {
    var p :| p in m && MapBytes(m) == 3 + |p| + |m[p]| + MapBytes(m - {p});
    if p != k {
      MapBytesOf(m - {p}, k);
      MapBytesOf(m - {k}, p);
      assert m - {p} - {k} == m - {k} - {p};
    }
  }

  ghost function MapStep(m: map<seq<U8>, seq<U8>>, cap: nat, op: Op): (map<seq<U8>, seq<U8>>, Reply) {
    match op
    case Set(key, val) =>
      if KeyOk(key) && |val| <= RTC_VAL_MAX && MapBytes(m[key.chars := val]) <= cap
      then (m[key.chars := val], Flag(true))
      else (m, Flag(false))
    case Get(key) => (m, Value(if KeyOk(key) && key.chars in m then Some(m[key.chars]) else None))
    case Has(key) => (m, Flag(KeyOk(key) && key.chars in m))
    case Del(key) => if KeyOk(key) && key.chars in m then (m - {key.chars}, Flag(true)) else (m, Flag(false))
  }

  /** The same operations on the list of entries that the buffer holds. */
  ghost function ListStep(es: seq<Entry>, cap: nat, op: Op): (seq<Entry>, Reply)
    requires WellFormed(es)
  {
    match op
    case Set(key, val) =>
      if KeyOk(key) && |val| <= RTC_VAL_MAX && |Encode(es)| - OldSize(es, key.chars) + 3 + |key.chars| + |val| <= cap
      then (Drop(es, key.chars) + [Entry(key.chars, val)], Flag(true))
      else (es, Flag(false))
    case Get(key) =>
      (es, Value(if KeyOk(key) && IndexOf(es, key.chars) < |es| then Some(es[IndexOf(es, key.chars)].val) else None))
    case Has(key) => (es, Flag(KeyOk(key) && IndexOf(es, key.chars) < |es|))
    case Del(key) =>
      if KeyOk(key) && IndexOf(es, key.chars) < |es| then (Drop(es, key.chars), Flag(true)) else (es, Flag(false))
  }

  lemma {:induction false} EncodedBytes(es: seq<Entry>)
    requires WellFormed(es)
    ensures |Encode(es)| == MapBytes(ToMap(es))
  {
    if es != [] {
      var n := |es| - 1;
      EncodedBytes(es[..n]);
      ToMapKeys(es[..n], es[n].key);
      assert ToMap(es) - {es[n].key} == ToMap(es[..n]);
      MapBytesOf(ToMap(es), es[n].key);
    }
  }

  lemma AppendFresh(es: seq<Entry>, e: Entry)
    requires WellFormed(es) && EntryOk(e) && forall j :: 0 <= j < |es| ==> es[j].key != e.key
    ensures WellFormed(es + [e]) && ToMap(es + [e]) == ToMap(es)[e.key := e.val]
    ensures |Encode(es + [e])| == |Encode(es)| + Size(e)
  {
    assert (es + [e])[..|es|] == es;
  }

  lemma SetRefinesMap(es: seq<Entry>, cap: nat, k: seq<U8>, val: seq<U8>)
    requires WellFormed(es) && EntryOk(Entry(k, val))
    ensures var d := Drop(es, k) + [Entry(k, val)];
      && WellFormed(d) && ToMap(d) == ToMap(es)[k := val]
      && |Encode(d)| == |Encode(es)| - OldSize(es, k) + 3 + |k| + |val| == MapBytes(ToMap(es)[k := val])
  {
    hide IndexOf, Encode, ToMap, MapBytes;
    DropWellFormed(es, k);
    DropIsRemoval(es, k);
    DropLength(es, k);
    var e := Entry(k, val);
    AppendFresh(Drop(es, k), e);
    assert (ToMap(es) - {k})[k := val] == ToMap(es)[k := val];
    EncodedBytes(Drop(es, k) + [e]);
  }

  /** One operation on the entries is that operation on the map they stand for. */
  lemma StepRefinesMap(es: seq<Entry>, cap: nat, op: Op)
    requires WellFormed(es) && |Encode(es)| <= cap
    ensures WellFormed(ListStep(es, cap, op).0) && |Encode(ListStep(es, cap, op).0)| <= cap
    ensures ToMap(ListStep(es, cap, op).0) == MapStep(ToMap(es), cap, op).0
    ensures ListStep(es, cap, op).1 == MapStep(ToMap(es), cap, op).1
  {
    hide Encode, ToMap, MapBytes, IndexOf;
    if KeyOk(op.key) {
      var k := op.key.chars;
      ToMapLookup(es, k);
      match op
      case Set(_, val) =>
        if |val| <= RTC_VAL_MAX {
          SetRefinesMap(es, cap, k, val);
        }
      case Del(_) =>
        DropWellFormed(es, k);
        DropIsRemoval(es, k);
        DropLength(es, k);
      case _ =>
    }
  }

  ghost function ListRun(cap: nat, ops: seq<Op>): (seq<Entry>, seq<Reply>)
    ensures WellFormed(ListRun(cap, ops).0) && |Encode(ListRun(cap, ops).0)| <= cap
  {
    if ops == [] then ([], [])
    else
      var (es, rs) := ListRun(cap, ops[..|ops| - 1]);
      var (es', r) := ListStep(es, cap, ops[|ops| - 1]);
      StepRefinesMap(es, cap, ops[|ops| - 1]);
      (es', rs + [r])
  }

  ghost function MapRun(cap: nat, ops: seq<Op>): (map<seq<U8>, seq<U8>>, seq<Reply>) {
    if ops == [] then (map[], [])
    else
      var (m, rs) := MapRun(cap, ops[..|ops| - 1]);
      var (m', r) := MapStep(m, cap, ops[|ops| - 1]);
      (m', rs + [r])
  }

  /** From empty, every sequence of operations answers as the capacity-bounded map does. */
  lemma {:induction false} RunRefinesMap(cap: nat, ops: seq<Op>)
    ensures ToMap(ListRun(cap, ops).0) == MapRun(cap, ops).0
    ensures ListRun(cap, ops).1 == MapRun(cap, ops).1
  {
    if ops != [] {
      RunRefinesMap(cap, ops[..|ops| - 1]);
      StepRefinesMap(ListRun(cap, ops[..|ops| - 1]).0, cap, ops[|ops| - 1]);
    }
  }

  // ---------------------------------------------------------------- the buffer

  class Store {
    const buf: array<U8>
    var len: nat
    ghost var entries: seq<Entry>

    ghost predicate Valid()
      reads this, buf
    {
      && buf.Length < 0x1_0000
      && WellFormed(entries)
      && HoldsEntries(buf[..], len, entries)
    }

    constructor (cap: nat)
      requires cap < 0x1_0000
      ensures Valid() && fresh(buf) && buf.Length == cap && len == 0 && entries == []
    {
      buf := new U8[cap](_ => 0);
      len := 0;
      entries := [];
    }

    static lemma ScanAdvances(s: seq<U8>, n: nat, key: seq<U8>, o: nat)
      requires n <= |s| && n < 0x1_0000 && !ScanFrom(s, n, key, o).Stuck?
      ensures var r := ScanRound(s, n, key, o);
        ScanFrom(s, n, key, o) == (if r.Done? then r.result else ScanFrom(s, n, key, r.o)) && (r.Next? ==> o < r.o)
    {
      hide ScanRound;
      var r := ScanRound(s, n, key, o);
      if r.Next? {
        assert r == Next(r.o) && o <= r.o && r.o != o;
      }
    }

    /** The scan loop; it needs no more of the buffer than that the scan does not stall. */
    method Find(key: seq<U8>) returns (off: int, esz: nat)
      requires len <= buf.Length && len < 0x1_0000 && !ScanFrom(buf[..], len, key, 0).Stuck?
      ensures match ScanFrom(buf[..], len, key, 0)
        case Found(o, n) => off == o && esz == n
        case _ => off == -1
    {
      hide ScanFrom;
      ghost var s := buf[..];
      var o := 0;
      esz := 0;
      while o + 3 <= len
        invariant 0 <= o <= len
        invariant ScanFrom(s, len, key, o) == ScanFrom(s, len, key, 0)
        decreases len - o
      {
        ScanAdvances(s, len, key, o);
        var kl: int := buf[o];
        if o + 1 + kl + 2 > len { break; }
        var vl: int := (buf[o + 1 + kl] as int) + 0x100 * (buf[o + 1 + kl + 1] as int);
        var entry := (1 + kl + 2 + vl) % 0x1_0000;
        if o + entry > len { break; }
        assert buf[o + 1..o + 1 + kl] == s[o + 1..o + 1 + kl];
        if kl == |key| && buf[o + 1..o + 1 + kl] == key {
          return o, entry;
        }
        o := o + entry;
      }
      ScanAdvances(s, len, key, o);
      off := -1;
    }

    /** The scan on a valid buffer, in terms of its entries. */
    method FindEntry(key: seq<U8>) returns (off: int, esz: nat)
      requires Valid()
      ensures IndexOf(entries, key) == |entries| <==> off == -1
      ensures IndexOf(entries, key) < |entries| ==>
        off == |Encode(entries[..IndexOf(entries, key)])| && esz == Size(entries[IndexOf(entries, key)])
    {
      assert entries[..0] == [];
      ScanFindsIndex(buf[..], len, key, entries, 0);
      off, esz := Find(key);
    }

    /** Close the gap that an entry leaves. */
    method Compact(off: nat, esz: nat, ghost key: seq<U8>)
      requires Valid() && IndexOf(entries, key) < |entries|
      requires off == |Encode(entries[..IndexOf(entries, key)])| && esz == Size(entries[IndexOf(entries, key)])
      modifies this, buf
      ensures Valid() && entries == Drop(old(entries), key) && len == old(len) - esz
    {
      hide EntryBytes, IndexOf, Encode, Drop;
      ghost var es, was := entries, buf[..len];
      GapCloses(es, key);
      DropWellFormed(es, key);
      forall k | off <= k < len - esz {
        buf[k] := buf[k + esz];
      }
      len := len - esz;
      assert buf[..len] == was[..off] + was[off + esz..];
      entries := Drop(es, key);
    }

    /** Cutting an entry's bytes out leaves the encoding of the other entries. */
    static lemma GapCloses(es: seq<Entry>, key: seq<U8>)
      requires IndexOf(es, key) < |es|
      ensures var i := IndexOf(es, key); var o := |Encode(es[..i])|;
        && o + Size(es[i]) <= |Encode(es)|
        && Encode(es)[..o] + Encode(es)[o + Size(es[i])..] == Encode(Drop(es, key))
    {
      hide EntryBytes, IndexOf, Encode;
      var i := IndexOf(es, key);
      EncodeAround(es, i);
      EncodeConcat(es[..i], es[i + 1..]);
    }

    /** Write a fresh entry behind the last one. */
    method Append(key: seq<U8>, val: seq<U8>)
      requires Valid() && EntryOk(Entry(key, val)) && len + Size(Entry(key, val)) <= buf.Length
      requires forall j :: 0 <= j < |entries| ==> entries[j].key != key
      modifies this, buf
      ensures Valid() && entries == old(entries) + [Entry(key, val)]
    {
      hide Encode, EntryBytes;
      ghost var e, was := Entry(key, val), buf[..len];
      AppendFresh(entries, e);
      EncodeConcat(entries, [e]);
      EncodeOne(e);
      WriteEntry(key, val);
      ghost var s := buf[..];
      assert s[..len] == was + s[|was|..len];
      entries := entries + [e];
    }

    /** Lay the entry's bytes out behind the used part of the buffer. */
    method WriteEntry(key: seq<U8>, val: seq<U8>)
      requires EntryOk(Entry(key, val)) && len + Size(Entry(key, val)) <= buf.Length
      modifies this`len, buf
      ensures len == old(len) + Size(Entry(key, val)) && buf[..old(len)] == old(buf[..len])
      ensures buf[old(len)..len] == EntryBytes(Entry(key, val))
    {
      hide EntryBytes;
      var at := len;
      buf[at] := |key|;
      forall k | 0 <= k < |key| {
        buf[at + 1 + k] := key[k];
      }
      var p := at + 1 + |key|;
      buf[p] := |val| % 0x100;
      buf[p + 1] := |val| / 0x100;
      forall k | 0 <= k < |val| {
        buf[p + 2 + k] := val[k];
      }
      len := p + 2 + |val|;
      ghost var s := buf[..];
      assert s[at + 1..p] == key && s[p + 2..len] == val;
      FieldsMakeEntry(s, at, Entry(key, val));
      assert buf[at..len] == s[at..len];
    }

    /** Set checks for room before it changes anything. */
    method Set(key: CString, val: seq<U8>) returns (ok: bool)
      requires Valid()
      modifies this, buf
      ensures Valid()
      ensures (entries, Flag(ok)) == ListStep(old(entries), buf.Length, Op.Set(key, val))
      ensures ok <==>
        && key.Str? && 1 <= |key.chars| <= 32 && |val| <= 64
        && MapBytes(ToMap(old(entries))[key.chars := val]) <= buf.Length
      ensures !ok ==> buf[..] == old(buf[..]) && len == old(len)
    {
      if key.Null? { return false; }
      var k := key.chars;
      if |k| < 1 || |k| > RTC_KEY_MAX || |val| > RTC_VAL_MAX { return false; }
      var entry := 1 + |k| + 2 + |val|;
      SetRefinesMap(entries, buf.Length, k, val);
      hide MapBytes, ToMap;
      var off, oldsz := FindEntry(k);
      DropLength(entries, k);
      DropWellFormed(entries, k);
      var base := len - (if off >= 0 then oldsz else 0);
      if base + entry > buf.Length { return false; }
      if off >= 0 {
        Compact(off, oldsz, k);
      }
      Append(k, val);
      ok := true;
    }

    method Get(key: CString) returns (val: Option<seq<U8>>)
      requires Valid()
      ensures (entries, Value(val)) == ListStep(entries, buf.Length, Op.Get(key))
    {
      if key.Null? { return None; }
      var k := key.chars;
      if |k| < 1 || |k| > RTC_KEY_MAX { return None; }
      var off, esz := FindEntry(k);
      if off < 0 { return None; }
      ghost var e := entries[IndexOf(entries, k)];
      EntryPlace(buf[..], len, entries, IndexOf(entries, k));
      var v := ReadValue(off, e);
      val := Some(v);
    }

    /** Copy out the value of the entry at the offset. */
    method ReadValue(off: nat, ghost e: Entry) returns (val: seq<U8>)
      requires EntryOk(e) && off + Size(e) <= len <= buf.Length && buf[..][off..off + Size(e)] == EntryBytes(e)
      ensures val == e.val
    {
      hide EntryBytes;
      ghost var s := buf[..];
      ReadEntry(s, off, e);
      var kl: int := buf[off];
      var vl: int := (buf[off + 1 + kl] as int) + 0x100 * (buf[off + 1 + kl + 1] as int);
      val := buf[off + 1 + kl + 2..off + 1 + kl + 2 + vl];
      assert val == s[off + 1 + |e.key| + 2..off + Size(e)];
    }

    method Has(key: CString) returns (ok: bool)
      requires Valid()
      ensures (entries, Flag(ok)) == ListStep(entries, buf.Length, Op.Has(key))
    {
      var v := Get(key);
      ok := v.Some?;
    }

    method Del(key: CString) returns (ok: bool)
      requires Valid()
      modifies this, buf
      ensures Valid()
      ensures (entries, Flag(ok)) == ListStep(old(entries), buf.Length, Op.Del(key))
      ensures !ok ==> buf[..] == old(buf[..]) && len == old(len)
    {
      if key.Null? { return false; }
      var k := key.chars;
      if |k| < 1 || |k| > RTC_KEY_MAX { return false; }
      var off, esz := FindEntry(k);
      if off < 0 { return false; }
      Compact(off, esz, k);
      ok := true;
    }
  }
}
