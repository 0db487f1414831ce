/** Streaming SHA-1 as the firmware computes it, against FIPS 180-4. */
module Sha1 {
  import opened Machine

  // ---------------------------------------------------------------- FIPS 180-4

  datatype Hash = Hash(a: bv32, b: bv32, c: bv32, d: bv32, e: bv32)

  // Section 5.3.1.
  const INITIAL := Hash(0x67452301, 0xefcdab89, 0x98badcfe, 0x10325476, 0xc3d2e1f0)

  function Rotl(x: bv32, n: nat): bv32
    requires 0 < n < 32
  {
    (x << n) | (x >> (32 - n))
  }

  // Section 4.1.1.
  function Ch(x: bv32, y: bv32, z: bv32): bv32 { (x & y) ^ (!x & z) }
  function Parity(x: bv32, y: bv32, z: bv32): bv32 { x ^ y ^ z }
  function Maj(x: bv32, y: bv32, z: bv32): bv32 { (x & y) ^ (x & z) ^ (y & z) }

  function F(t: nat, x: bv32, y: bv32, z: bv32): bv32 {
    if t < 20 then Ch(x, y, z) else if t < 40 then Parity(x, y, z) else if t < 60 then Maj(x, y, z) else Parity(x, y, z)
  }

  // Section 4.2.1.
  function K(t: nat): bv32 {
    if t < 20 then 0x5a827999 else if t < 40 then 0x6ed9eba1 else if t < 60 then 0x8f1bbcdc else 0xca62c1d6
  }

  function Word(m: seq<bv8>, i: nat): bv32
    requires 4 * i + 4 <= |m|
  {
    ((m[4 * i] as bv32) << 24) | ((m[4 * i + 1] as bv32) << 16) | ((m[4 * i + 2] as bv32) << 8) | (m[4 * i + 3] as bv32)
  }

  /** The message schedule, section 6.1.2 step 1. */
  function W(m: seq<bv8>, t: nat): bv32
    requires |m| == 64
  {
    if t < 16 then Word(m, t) else Rotl(W(m, t - 3) ^ W(m, t - 8) ^ W(m, t - 14) ^ W(m, t - 16), 1)
  }

  /** Addition modulo 2^32. */
  function Sum5(x: bv32, f: bv32, e: bv32, k: bv32, w: bv32): bv32 {
    x + f + e + k + w
  }

  /** Step 3: one of the eighty rounds. */
  function Round(h: Hash, t: nat, w: bv32): Hash {
    Hash(Sum5(Rotl(h.a, 5), F(t, h.b, h.c, h.d), h.e, K(t), w), h.a, Rotl(h.b, 30), h.c, h.d)
  }

  function Rounds(h: Hash, m: seq<bv8>, n: nat): Hash
    requires |m| == 64
  {
    if n == 0 then h else Round(Rounds(h, m, n - 1), n - 1, W(m, n - 1))
  }

  function Add(x: bv32, y: bv32): bv32 {
    x + y
  }

  function AddHash(x: Hash, y: Hash): Hash {
    Hash(Add(x.a, y.a), Add(x.b, y.b), Add(x.c, y.c), Add(x.d, y.d), Add(x.e, y.e))
  }

  /** Step 4. */
  function Compress(h: Hash, m: seq<bv8>): Hash
    requires |m| == 64
  {
    AddHash(h, Rounds(h, m, 80))
  }

  function HashBlocks(h: Hash, m: seq<bv8>): Hash
    requires |m| % 64 == 0
  {
    if m == [] then h else Compress(HashBlocks(h, m[..|m| - 64]), m[|m| - 64..])
  }

  /** The number of zero bytes of the padding of section 5.1.1, after the byte 0x80. */
  function ZeroBytes(n: nat): nat {
    (119 - n % 64) % 64
  }

  /** In bits, the padding is 1, then the smallest number k of zeros with l + 1 + k = 448 modulo 512. */
  lemma PaddingIsSmallest(n: nat, k: nat)
    ensures (8 * n + 1 + (7 + 8 * ZeroBytes(n))) % 512 == 448
    ensures (8 * n + 1 + k) % 512 == 448 ==> k >= 7 + 8 * ZeroBytes(n)
  {
    var q, r := n / 64, n % 64;
    assert n == 64 * q + r;
    assert (n + 1 + ZeroBytes(n)) % 64 == 56;
    var p := (8 * n + 1 + k) / 512;
    assert k - (447 - 8 * r) == 512 * (p - q) + (8 * n + 1 + k) % 512 - 448;
  }

  const TWO_64: nat := 0x1_0000_0000_0000_0000

  function Byte(v: int): bv8
    requires 0 <= v < 0x100
  {
    v as bv8
  }

  /** The low n bytes of v, most significant first. */
  function BigEndian(v: nat, n: nat): (s: seq<bv8>)
    ensures |s| == n
  {
    if n == 0 then [] else BigEndian(v / 0x100, n - 1) + [Byte(v % 0x100)]
  }

  function Zeros(n: nat): (s: seq<bv8>)
    ensures |s| == n && forall i :: 0 <= i < n ==> s[i] == 0
  {
    seq(n, _ => 0)
  }

  /** The message bit count, kept in a wrapping 64-bit counter. */
  function BitLength(n: nat): U64 {
    8 * n % TWO_64
  }

  /** Section 5.1.1; FIPS requires the bit count to fit its 64 bits. */
  function Padding(n: nat): (s: seq<bv8>)
    ensures |s| == 1 + ZeroBytes(n) + 8
  {
    [0x80] + Zeros(ZeroBytes(n)) + BigEndian(BitLength(n), 8)
  }

  lemma PaddedLength(n: nat)
    ensures (n + |Padding(n)|) % 64 == 0
  {
    hide Padding;
    var q, r := n / 64, n % 64;
    assert n == 64 * q + r;
  }

  function WordBytes(w: bv32): (s: seq<bv8>)
    ensures |s| == 4
  {
    [((w >> 24) & 0xff) as bv8, ((w >> 16) & 0xff) as bv8, ((w >> 8) & 0xff) as bv8, (w & 0xff) as bv8]
  }

  function Digest(h: Hash): (s: seq<bv8>)
    ensures |s| == 20
  {
    WordBytes(h.a) + WordBytes(h.b) + WordBytes(h.c) + WordBytes(h.d) + WordBytes(h.e)
  }

  function Sha1(m: seq<bv8>): (s: seq<bv8>)
    ensures |s| == 20
  {
    PaddedLength(|m|);
    Digest(HashBlocks(INITIAL, m + Padding(|m|)))
  }

  // ---------------------------------------------------------------- blocks

  lemma {:induction false} HashBlocksConcat(h: Hash, a: seq<bv8>, b: seq<bv8>)
    requires |a| % 64 == 0 && |b| % 64 == 0
    ensures HashBlocks(h, a + b) == HashBlocks(HashBlocks(h, a), b)
  {
    hide Compress;
    if b == [] {
      assert a + b == a;
    } else {
      var n := |b| - 64;
      HashBlocksConcat(h, a, b[..n]);
      assert (a + b)[..|a + b| - 64] == a + b[..n];
      assert (a + b)[|a + b| - 64..] == b[n..];
    }
  }

  /** Words are read and written most significant byte first, and what is written is read back. */
  lemma WordOfBytes(w: bv32)
    ensures Word(WordBytes(w), 0) == w
    ensures WordBytes(0x01020304) == [0x01, 0x02, 0x03, 0x04]
  {
  }

  /** The rounds add modulo 2^32 and rotate to the left. */
  lemma RoundSum(x: bv32, f: bv32, e: bv32, k: bv32, w: bv32)
    ensures Sum5(x, f, e, k, w) == x + f + e + k + w
  {
  }

  lemma WordSum(x: bv32, y: bv32)
    ensures Add(x, y) == x + y
  {
  }

  lemma RotlRotates(x: bv32)
    ensures Rotl(x, 1) == x.RotateLeft(1) && Rotl(x, 5) == x.RotateLeft(5) && Rotl(x, 30) == x.RotateLeft(30)
  {
  }

  lemma ChoiceForms(b: bv32, c: bv32, d: bv32)
    ensures (b & c) | (!b & d) == Ch(b, c, d)
  {
  }

  lemma MajorityForms(b: bv32, c: bv32, d: bv32)
    ensures (b & c) | (b & d) | (c & d) == Maj(b, c, d)
  {
  }

  lemma NextRound(h: Hash, m: seq<bv8>, i: nat)
    requires |m| == 64
    ensures Rounds(h, m, i + 1) == Round(Rounds(h, m, i), i, W(m, i))
  {
  }

  lemma ParityForm(b: bv32, c: bv32, d: bv32)
    ensures b ^ c ^ d == Parity(b, c, d)
  {
  }

  /** The function and constant of round i, as the code selects them. */
  method RoundInputs(i: nat, b: bv32, c: bv32, d: bv32) returns (f: bv32, k: bv32)
    ensures f == F(i, b, c, d) && k == K(i)
  {
    hide Ch, Maj, Parity;
    ParityForm(b, c, d);
    if i < 20 {
      f := (b & c) | (!b & d);
      ChoiceForms(b, c, d);
      k := 0x5a827999;
    } else if i < 40 {
      f := b ^ c ^ d;
      k := 0x6ed9eba1;
    } else if i < 60 {
      f := (b & c) | (b & d) | (c & d);
      MajorityForms(b, c, d);
      k := 0x8f1bbcdc;
    } else {
      f := b ^ c ^ d;
      k := 0xca62c1d6;
    }
  }

  lemma LaterWord(block: seq<bv8>, t: nat)
    requires |block| == 64 && t >= 16
    ensures W(block, t) == Rotl(W(block, t - 3) ^ W(block, t - 8) ^ W(block, t - 14) ^ W(block, t - 16), 1)
  {
  }

  lemma FirstWord(block: seq<bv8>, t: nat)
    requires |block| == 64 && t < 16
    ensures W(block, t) == Word(block, t)
  {
  }

  method Schedule(block: seq<bv8>) returns (words: seq<bv32>)
    requires |block| == 64
    ensures |words| == 80 && forall j :: 0 <= j < 80 ==> words[j] == W(block, j)
  {
    hide Rotl, Word, W;
    var w := new bv32[80];
    for i := 0 to 16
      invariant forall j :: 0 <= j < i ==> w[j] == W(block, j)
    {
      w[i] := Word(block, i);
      FirstWord(block, i);
    }
    for i := 16 to 80
      invariant forall j :: 0 <= j < i ==> w[j] == W(block, j)
    {
      w[i] := Rotl(w[i - 3] ^ w[i - 8] ^ w[i - 14] ^ w[i - 16], 1);
      LaterWord(block, i);
    }
    words := w[..];
  }

  /** The block function: an eighty-word schedule array, then eighty rounds on five variables. */
  method Block(h: Hash, block: seq<bv8>) returns (r: Hash)
    requires |block| == 64
    ensures r == Compress(h, block)
  {
    hide Rotl, F, K, W, Sum5, Add;
    var w := Schedule(block);
    var a, b, c, d, e := h.a, h.b, h.c, h.d, h.e;
    for i := 0 to 80
      invariant Hash(a, b, c, d, e) == Rounds(h, block, i)
    {
      var f, k := RoundInputs(i, b, c, d);
      NextRound(h, block, i);
      var t := Sum5(Rotl(a, 5), f, e, k, w[i]);
      e := d;
      d := c;
      c := Rotl(b, 30);
      b := a;
      a := t;
    }
    r := Hash(Add(h.a, a), Add(h.b, b), Add(h.c, c), Add(h.d, d), Add(h.e, e));
  }

  // ---------------------------------------------------------------- the streaming context

  /** The eight bytes of a 64-bit counter, filled from the last to the first. */
  method StoreBe64(v: U64) returns (p: array<bv8>)
    ensures fresh(p) && p.Length == 8 && p[..] == BigEndian(v, 8)
  {
    p := new bv8[8];
    var rest: nat := v;
    var i := 8;
    while i > 0
      invariant 0 <= i <= 8
      invariant BigEndian(v, 8) == BigEndian(rest, i) + p[i..]
    {
      i := i - 1;
      p[i] := Byte(rest % 0x100);
      ghost var was := rest;
      rest := rest / 0x100;
      assert p[i..] == [Byte(was % 0x100)] + p[i + 1..];
    }
    assert p[..] == BigEndian(rest, 0) + p[0..];
  }

  /** A streaming state: the hash of the full blocks of the message, and the tail behind them. */
  ghost predicate Streamed(h: Hash, tail: seq<bv8>, msg: seq<bv8>) {
    && |tail| < 64 && |tail| == |msg| % 64
    && tail == msg[|msg| - |tail|..]
    && h == HashBlocks(INITIAL, msg[..|msg| - |tail|])
  }

  lemma NothingStreamed()
    ensures Streamed(INITIAL, [], [])
  {
  }

  lemma TailGrows(h: Hash, tail: seq<bv8>, msg: seq<bv8>, part: seq<bv8>)
    requires Streamed(h, tail, msg) && |tail| + |part| < 64
    ensures Streamed(h, tail + part, msg + part)
  {
    hide HashBlocks;
    var n := |msg| - |tail|;
    assert (msg + part)[..n] == msg[..n];
    assert (msg + part)[n..] == tail + part;
  }

  lemma BlockCompletes(h: Hash, tail: seq<bv8>, msg: seq<bv8>, part: seq<bv8>)
    requires Streamed(h, tail, msg) && |tail| + |part| == 64
    ensures Streamed(Compress(h, tail + part), [], msg + part)
  {
    hide HashBlocks, Compress;
    var full := msg[..|msg| - |tail|];
    assert msg + part == full + (tail + part);
    HashBlocksConcat(INITIAL, full, tail + part);
    OneBlock(h, tail + part);
    assert (msg + part)[..|msg + part|] == msg + part;
  }

  lemma OneBlock(h: Hash, b: seq<bv8>)
    requires |b| == 64
    ensures HashBlocks(h, b) == Compress(h, b)
  {
    hide Compress;
    assert b[..0] == [] && b[0..] == b;
    assert HashBlocks(h, b) == Compress(HashBlocks(h, []), b);
  }

  lemma BitLengthAdds(n: nat, m: nat)
    ensures (BitLength(n) + m % 0x1_0000_0000_0000_0000 * 8) % 0x1_0000_0000_0000_0000 == BitLength(n + m)
  {
    Parts64(8 * n);
    Parts64(m);
    var s := 8 * n % TWO_64 + m % TWO_64 * 8;
    Parts64(s);
    Remainder64(8 * (n + m), 8 * n / TWO_64 + 8 * (m / TWO_64) + s / TWO_64, s % TWO_64);
  }

  lemma Parts64(n: nat)
    ensures n == TWO_64 * (n / TWO_64) + n % TWO_64
  {
  }

  lemma Remainder64(n: nat, q: nat, r: nat)
    requires n == TWO_64 * q + r && r < TWO_64
    ensures n % TWO_64 == r
  {
  }

  class Ctx {
    var h: Hash
    var len: U64
    const buf: array<bv8>
    var bufLen: nat
    ghost var msg: seq<bv8>   // everything fed in since the last Init

    /** All but the bit count: the state is the hash of the full blocks plus the unhashed tail. */
    ghost predicate Buffered()
      reads this, buf
    {
      buf.Length == 64 && bufLen < 64 && Streamed(h, buf[..bufLen], msg)
    }

    ghost predicate Valid()
      reads this, buf
    {
      Buffered() && len == BitLength(|msg|)
    }

    constructor ()
      ensures Valid() && msg == [] && fresh(buf)
      ensures h == Hash(0x67452301, 0xefcdab89, 0x98badcfe, 0x10325476, 0xc3d2e1f0)
    {
      hide Streamed;
      h := INITIAL;
      len := 0;
      buf := new bv8[64];
      bufLen := 0;
      msg := [];
      new;
      NothingStreamed();
      assert buf[..0] == [];
    }

    /** Start over; the block buffer keeps its old bytes. */
    method Init()
      requires buf.Length == 64
      modifies this
      ensures Valid() && msg == [] && h == Hash(0x67452301, 0xefcdab89, 0x98badcfe, 0x10325476, 0xc3d2e1f0)
    {
      hide Streamed;
      h := INITIAL;
      len := 0;
      bufLen := 0;
      msg := [];
      NothingStreamed();
      assert buf[..0] == [];
    }

    /** Copy part of the data behind the tail; hash the block if that filled it. */
    method Absorb(part: seq<bv8>)
      requires Buffered() && 0 < |part| <= 64 - bufLen
      modifies this`h, this`bufLen, this`msg, buf
      ensures Buffered() && msg == old(msg) + part
    {
      hide Compress, Streamed;
      ghost var tail := buf[..bufLen];
      forall i | 0 <= i < |part| {
        buf[bufLen + i] := part[i];
      }
      bufLen := bufLen + |part|;
      assert buf[..bufLen] == tail + part;
      if bufLen == 64 {
        assert buf[..] == tail + part;
        BlockCompletes(h, tail, msg, part);
        h := Block(h, buf[..]);
        bufLen := 0;
        assert buf[..0] == [];
      } else {
        TailGrows(h, tail, msg, part);
      }
      msg := msg + part;
    }

    /** The update loop: however the data is cut into calls, the context is that of the whole message. */
    method Update(data: seq<bv8>)
      requires Valid()
      modifies this, buf
      ensures Valid() && msg == old(msg) + data
    {
      hide Streamed, BitLength;
      BitLengthAdds(|msg|, |data|);
      len := (len + |data| % 0x1_0000_0000_0000_0000 * 8) % 0x1_0000_0000_0000_0000;
      var i := 0;
      while i < |data|
        invariant 0 <= i <= |data| && Buffered() && msg == old(msg) + data[..i]
        invariant len == BitLength(|old(msg)| + |data|)
      {
        var take := 64 - bufLen;
        if take > |data| - i { take := |data| - i; }
        Absorb(data[i..i + take]);
        assert data[..i] + data[i..i + take] == data[..i + take];
        i := i + take;
      }
      assert data[..i] == data;
    }

    /** Pad from a 64-byte constant block, add the bit count, and emit the state. */
    method Final() returns (out: seq<bv8>)
      requires Valid()
      modifies this, buf
      ensures out == Sha1(old(msg)) && buf.Length == 64
    {
      hide HashBlocks, BigEndian, WordBytes, Padding, Streamed, ZeroBytes;
      ghost var m := msg;
      StreamedLength(h, buf[..bufLen], msg);
      var bits := StoreBe64(len);
      var padLen := if bufLen < 56 then 56 - bufLen else 120 - bufLen;
      var lead := PadBlock(padLen);
      PadLength(|m|);
      Update(lead);
      Update(bits[..]);
      PaddingParts(|m|);
      assert msg == m + Padding(|m|);
      PaddedLength(|m|);
      WholeBlocksStreamed(h, buf[..bufLen], msg);
      out := WordBytes(h.a) + WordBytes(h.b) + WordBytes(h.c) + WordBytes(h.d) + WordBytes(h.e);
    }

    lemma StreamedLength(h: Hash, tail: seq<bv8>, msg: seq<bv8>)
      requires Streamed(h, tail, msg)
      ensures |tail| == |msg| % 64
    {
    }

    lemma WholeBlocksStreamed(h: Hash, tail: seq<bv8>, msg: seq<bv8>)
      requires Streamed(h, tail, msg) && |msg| % 64 == 0
      ensures h == HashBlocks(INITIAL, msg)
    {
      hide HashBlocks;
      assert msg[..|msg|] == msg;
    }

    lemma PadLength(n: nat)
      ensures (if n % 64 < 56 then 56 - n % 64 else 120 - n % 64) == 1 + ZeroBytes(n)
    {
    }

    lemma PaddingParts(n: nat)
      ensures Padding(n) == ([0x80] + Zeros(ZeroBytes(n))) + BigEndian(BitLength(n), 8)
    {
    }
  }

  /** The first padLen bytes of the 64-byte constant block `0x80 0 0 ...`. */
  method PadBlock(padLen: nat) returns (lead: seq<bv8>)
    requires 1 <= padLen <= 64
    ensures lead == [0x80] + Zeros(padLen - 1)
  {
    var pad := new bv8[64](i => if i == 0 then 0x80 else 0);
    lead := pad[..padLen];
  }

  method Sha1Of(data: seq<bv8>) returns (out: seq<bv8>)
    ensures out == Sha1(data)
  {
    var ctx := new Ctx();
    ctx.Update(data);
    assert [] + data == data;
    out := ctx.Final();
  }
}
