/** HMAC-SHA1 (RFC 2104) and HOTP (RFC 4226): the firmware's buffers and loops, and the backend's function. */
module Hotp {
  import opened Machine
  import opened Sha1

  const BLOCK := 64

  // ---------------------------------------------------------------- RFC 2104, section 2

  function HmacKey(key: seq<bv8>): (k: seq<bv8>)
    ensures |k| == 64
  {
    var k := if |key| > BLOCK then Sha1.Sha1(key) else key;
    k + Zeros(BLOCK - |k|)
  }

  function XorAll(k: seq<bv8>, p: bv8): (r: seq<bv8>)
    ensures |r| == |k| && forall i :: 0 <= i < |k| ==> r[i] == k[i] ^ p
  {
    seq(|k|, i requires 0 <= i < |k| => k[i] ^ p)
  }

  function HmacSha1(key: seq<bv8>, text: seq<bv8>): (mac: seq<bv8>)
    ensures |mac| == 20
  {
    var k := HmacKey(key);
    Sha1.Sha1(XorAll(k, 0x5c) + Sha1.Sha1(XorAll(k, 0x36) + text))
  }

  /** Both pads: filled with their constant, then the key's bytes xor-ed over the front. */
  method KeyPads(key: seq<bv8>, ghost whole: seq<bv8>) returns (ipad: seq<bv8>, opad: seq<bv8>)
    requires |key| <= BLOCK && whole == key + Zeros(BLOCK - |key|)
    ensures ipad == XorAll(whole, 0x36) && opad == XorAll(whole, 0x5c)
  {
    var a, b := new bv8[BLOCK](_ => 0x36), new bv8[BLOCK](_ => 0x5c);
    hide KeyOver;
    NoKeyOver(a[..], key, 0x36);
    NoKeyOver(b[..], key, 0x5c);
    for i := 0 to |key|
      invariant KeyOver(a[..], key, 0x36, i) && KeyOver(b[..], key, 0x5c, i)
    {
      KeyOverNext(a[..], key, 0x36, i);
      KeyOverNext(b[..], key, 0x5c, i);
      a[i] := a[i] ^ key[i];
      b[i] := b[i] ^ key[i];
    }
    KeyOverAll(a[..], key, 0x36, whole);
    KeyOverAll(b[..], key, 0x5c, whole);
    ipad, opad := a[..], b[..];
  }

  /** The first i bytes are key bytes xor the pad constant, the rest the constant alone. */
  ghost predicate KeyOver(s: seq<bv8>, key: seq<bv8>, p: bv8, i: nat)
    requires |key| <= BLOCK
  {
    |s| == BLOCK && i <= |key| && forall j :: 0 <= j < BLOCK ==> s[j] == if j < i then key[j] ^ p else p
  }

  lemma NoKeyOver(s: seq<bv8>, key: seq<bv8>, p: bv8)
    requires |key| <= BLOCK && |s| == BLOCK && forall j :: 0 <= j < BLOCK ==> s[j] == p
    ensures KeyOver(s, key, p, 0)
  {
  }

  lemma KeyOverNext(s: seq<bv8>, key: seq<bv8>, p: bv8, i: nat)
    requires |key| <= BLOCK && i < |key| && KeyOver(s, key, p, i)
    ensures KeyOver(s[i := s[i] ^ key[i]], key, p, i + 1)
  {
    XorCommutes(p, key[i]);
  }

  lemma XorCommutes(x: bv8, y: bv8)
    ensures x ^ y == y ^ x
  {
  }

  lemma KeyOverAll(s: seq<bv8>, key: seq<bv8>, p: bv8, whole: seq<bv8>)
    requires |key| <= BLOCK && KeyOver(s, key, p, |key|) && whole == key + Zeros(BLOCK - |key|)
    ensures s == XorAll(whole, p)
  {
    assert 0 ^ p == p by { XorZero(p); }
  }

  lemma XorZero(p: bv8)
    ensures 0 ^ p == p
  {
  }

  /** The firmware's HMAC: one context, initialized twice. */
  method AuthHmacSha1(key: seq<bv8>, msg: seq<bv8>) returns (mac: seq<bv8>)
    ensures mac == HmacSha1(key, msg)
  {
    hide Sha1.Sha1, XorAll, Streamed, BitLength;
    var k := key;
    if |key| > BLOCK {
      k := Sha1Of(key);
    }
    var ipad, opad := KeyPads(k, HmacKey(key));
    var ctx := new Ctx();
    ctx.Update(ipad);
    ctx.Update(msg);
    assert ([] + ipad) + msg == ipad + msg;
    var inner := ctx.Final();
    ctx.Init();
    ctx.Update(opad);
    ctx.Update(inner);
    assert ([] + opad) + inner == opad + inner;
    mac := ctx.Final();
  }

  // ---------------------------------------------------------------- RFC 4226, section 5.3

  lemma LowBits(b: bv8)
    ensures (b & 0x0f) as int == b as int % 16
  {
    assert b & 0x0f == b % 16;
  }

  function LowNibble(b: bv8): (off: nat)
    ensures off == b as int % 16
  {
    LowBits(b);
    (b & 0x0f) as nat
  }

  /** The 31-bit number formed by the four bytes at the offset: the first byte without its top bit. */
  function Snum(mac: seq<bv8>): bv32
    requires |mac| == 20
  {
    var off := LowNibble(mac[19]);
    ((mac[off] & 0x7f) as bv32) * 0x100_0000 + (mac[off + 1] as bv32) * 0x1_0000 + (mac[off + 2] as bv32) * 0x100 + (mac[off + 3] as bv32)
  }

  /** The example of section 5.4. */
  lemma TruncationExample()
    ensures var mac: seq<bv8> := [0x1f, 0x86, 0x98, 0x69, 0x0e, 0x02, 0xca, 0x16, 0x61, 0x85,
                                  0x50, 0xef, 0x7f, 0x19, 0xda, 0x8e, 0x94, 0x5b, 0x55, 0x5a];
      Snum(mac) == 0x50ef7f19
  {
  }

  function Number(b: bv32): nat {
    b as nat
  }

  function Pow10(n: nat): (p: nat)
    ensures p >= 1
  {
    if n == 0 then 1 else 10 * Pow10(n - 1)
  }

  /** Digit counts outside 6..8 are refused with 0, on both sides. */
  function Hotp(secret: seq<bv8>, c: U64, digits: int): nat {
    if digits < 6 || digits > 8 then 0
    else Number(Snum(HmacSha1(secret, BigEndian(c, 8)))) % Pow10(digits)
  }

  lemma ShiftsAreProducts(a: bv8, b: bv8, c: bv8, d: bv8)
    ensures (((a & 0x7f) as bv32) << 24) | ((b as bv32) << 16) | ((c as bv32) << 8) | (d as bv32) ==
            ((a & 0x7f) as bv32) * 0x100_0000 + (b as bv32) * 0x1_0000 + (c as bv32) * 0x100 + (d as bv32)
  {
  }

  lemma Pow10Small(n: nat)
    requires n <= 8
    ensures 1 <= Pow10(n) <= 1_0000_0000
    ensures n < 8 ==> Pow10(n) <= 1000_0000
  {
    assert Pow10(0) == 1 && Pow10(1) == 10 && Pow10(2) == 100;
    assert Pow10(3) == 1000 && Pow10(4) == 10000 && Pow10(5) == 10_0000;
    assert Pow10(6) == 100_0000 && Pow10(7) == 1000_0000 && Pow10(8) == 1_0000_0000;
  }

  /** uint32 arithmetic; ten to the eighth does not wrap. */
  method PowerOfTen(digits: int) returns (n: U32)
    requires 6 <= digits <= 8
    ensures n == Pow10(digits)
  {
    n := 1;
    for i := 0 to digits
      invariant n == Pow10(i)
    {
      Pow10Small(i);
      n := n * 10 % 0x1_0000_0000;
    }
  }

  /** The truncation both sides write with shifts and ors. */
  method Truncate(mac: seq<bv8>) returns (bin: bv32)
    requires |mac| == 20
    ensures bin == Snum(mac)
  {
    var off := LowNibble(mac[19]);
    ShiftsAreProducts(mac[off], mac[off + 1], mac[off + 2], mac[off + 3]);
    bin := (((mac[off] & 0x7f) as bv32) << 24) | ((mac[off + 1] as bv32) << 16) | ((mac[off + 2] as bv32) << 8) | (mac[off + 3] as bv32);
  }

  /** The firmware: its own SHA-1, HMAC and counter encoding. */
  method AuthHotp(k: seq<bv8>, c: U64, digits: int) returns (r: nat)
    ensures r == Hotp(k, c, digits)
  {
    hide Snum, BigEndian, HmacSha1;
    if digits < 6 || digits > 8 {
      return 0;
    }
    var msg := StoreBe64(c);
    var mac := AuthHmacSha1(k, msg[..]);
    var bin := Truncate(mac);
    var p := PowerOfTen(digits);
    Pow10Small(digits);
    r := Number(bin) % p;
  }

  /** The backend: the language's own hmac and sha1 packages, taken to be the RFC and FIPS functions. */
  method BackendHotp(secret: seq<bv8>, c: U64, digits: int) returns (r: nat)
    ensures r == Hotp(secret, c, digits)
  {
    hide Snum, BigEndian, HmacSha1;
    if digits < 6 || digits > 8 {
      return 0;
    }
    var sum := HmacSha1(secret, BigEndian(c, 8));
    var bin := Truncate(sum);
    var p := PowerOfTen(digits);
    Pow10Small(digits);
    r := Number(bin) % p;
  }

  /** A code of d digits is below ten to the d, so the 8-digit codes fit the wire format. */
  lemma HotpInRange(secret: seq<bv8>, c: U64, digits: int)
    ensures 6 <= digits <= 8 ==> Hotp(secret, c, digits) < Pow10(digits) <= 1_0000_0000
  {
    hide Snum, BigEndian, HmacSha1;
    if 6 <= digits <= 8 {
      Pow10Small(digits);
    }
  }
}
