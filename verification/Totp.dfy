/** src/totp.c: HOTP (section 5 of RFC 4226) and the TOTP window (section 4.2 of RFC 6238). */
module Totp {
  import opened Bytes
  import opened Hmac

  /** pow10: 10^digits for the supported lengths, the six-digit modulus otherwise. */
  function Modulus(digits: int): (m: nat)
    ensures m > 0
  {
    if digits == 7 then 10_000_000 else if digits == 8 then 100_000_000 else 1_000_000
  }

  /** The low four bits of the last MAC byte. */
  function Offset(mac: seq<byte>): (o: nat)
    requires |mac| == 20
    ensures o + 3 < |mac|
  {
    (mac[19] & 0x0f) as nat
  }

  /** Dynamic truncation: the four bytes at the offset as a big-endian number, top bit cleared. */
  function Truncate(mac: seq<byte>): word
    requires |mac| == 20
  {
    var o := Offset(mac);
    Pack(mac[o] & 0x7f, mac[o + 1], mac[o + 2], mac[o + 3])
  }

  lemma OffsetIs(mac: seq<byte>)
    requires |mac| == 20
    ensures Offset(mac) == (mac[19] & 0x0f) as nat
  {
  }

  /** Truncation reads exactly the four bytes at the offset and yields a 31-bit number. */
  lemma TruncateMeans(mac: seq<byte>)
    requires |mac| == 20
    ensures var o := (mac[19] & 0x0f) as nat;
            o + 4 <= 20 && WordBytes(Truncate(mac)) == [mac[o] & 0x7f] + mac[o + 1..o + 4]
    ensures Truncate(mac) < 0x8000_0000
  {
    hide Pack, WordBytes, Offset;
    var o := Offset(mac);
    OffsetIs(mac);
    assert [mac[o] & 0x7f] + mac[o + 1..o + 4] == [mac[o] & 0x7f, mac[o + 1], mac[o + 2], mac[o + 3]];
    PackBytes(mac[o] & 0x7f, mac[o + 1], mac[o + 2], mac[o + 3]);
    TopBit(mac[o], mac[o + 1], mac[o + 2], mac[o + 3]);
  }

  lemma PackBytes(b0: byte, b1: byte, b2: byte, b3: byte)
    ensures WordBytes(Pack(b0, b1, b2, b3)) == [b0, b1, b2, b3]
  {
  }

  lemma TopBit(b0: byte, b1: byte, b2: byte, b3: byte)
    ensures Pack(b0 & 0x7f, b1, b2, b3) < 0x8000_0000
  {
  }

  /** The first MAC of appendix D of RFC 4226 truncates to the code 755224. */
  lemma TruncateExample()
    ensures var mac := [0xcc, 0x93, 0xcf, 0x18, 0x50, 0x8d, 0x94, 0x93, 0x4c, 0x64,
                        0xb6, 0x5d, 0x8b, 0xa7, 0x66, 0x7f, 0xb7, 0xcd, 0xe4, 0xb0];
            Truncate(mac) == 0x4c93cf18 && Reduce(Truncate(mac), 6) == 755224
  {
    var mac: seq<byte> := [0xcc, 0x93, 0xcf, 0x18, 0x50, 0x8d, 0x94, 0x93, 0x4c, 0x64,
                           0xb6, 0x5d, 0x8b, 0xa7, 0x66, 0x7f, 0xb7, 0xcd, 0xe4, 0xb0];
    assert Offset(mac) == 0;
    assert Truncate(mac) == 0x4c93cf18;
    assert (0x4c93cf18 as word) as nat == 1284755224;
  }

  /** HOTP(K, C): HMAC of the eight-byte counter, truncated, reduced. */
  function Hotp(secret: seq<byte>, counter: nat, digits: int): (code: nat)
    ensures code < Modulus(digits)
  {
    Reduce(Truncate(HmacSha1(secret, BigEndian(counter, 8))), digits)
  }

  /** Byte i of the eight-byte counter: the counter divided by 256^(7 - i). */
  function CounterByte(counter: nat, i: nat): byte
    requires i < 8
  {
    ByteOf(counter / Pow256(7 - i) % 256)
  }

  function CounterBytes(counter: nat): (c: seq<byte>)
    ensures |c| == 8 && forall i :: 0 <= i < 8 ==> c[i] == CounterByte(counter, i)
  {
    seq(8, i requires 0 <= i < 8 => CounterByte(counter, i))
  }

  lemma CounterByteIs(counter: nat, i: nat)
    requires i < 8
    ensures BigEndian(counter, 8)[i] == CounterByte(counter, i)
  {
    hide ByteOf, Pow256, BigEndian, ShiftRight;
    BigEndianAt(counter, 8, i);
    ShiftDivides(counter, 7 - i);
  }

  /** Sections 5.2 and 5.3 of RFC 4226: the eight bytes of the counter are authenticated, and the code is
      the truncated MAC modulo a power of ten. */
  lemma HotpMeans(secret: seq<byte>, counter: nat, digits: int)
    ensures Hotp(secret, counter, digits) == Truncate(HmacSha1(secret, CounterBytes(counter))) as nat % Modulus(digits)
  {
    hide CounterByte, BigEndian, HmacSha1, Truncate, Modulus;
    var c := CounterBytes(counter);
    forall i | 0 <= i < 8
      ensures BigEndian(counter, 8)[i] == c[i]
    {
      CounterByteIs(counter, i);
    }
    assert BigEndian(counter, 8) == c;
  }

  function Reduce(snum: word, digits: int): (code: nat)
    ensures code < Modulus(digits)
  {
    snum as nat % Modulus(digits)
  }

  /** hotp (and totp_generate, which only forwards to it). */
  method Generate(secret: seq<byte>, counter: nat, digits: int) returns (code: nat)
    ensures code == Hotp(secret, counter, digits)
  {
    hide HmacSha1, Truncate;
    var be := new byte[8];
    var c := counter;
    for i := 0 to 8
      invariant be[8 - i..] + [] == be[8 - i..]
      invariant BigEndian(counter, 8) == BigEndian(c, 8 - i) + be[8 - i..]
    {
      be[7 - i] := ByteOf(c % 256);
      ghost var rest := be[8 - i..];
      c := c / 256;
      assert be[7 - i..] == [be[7 - i]] + rest;
    }
    assert be[..] == BigEndian(counter, 8);
    var mac := ComputeHmac(secret, be[..]);
    code := Reduce(Truncate(mac), digits);
  }

  /** struct totp_params without the address and the result pointer. */
  datatype Params = Params(now: nat, digits: int, step: nat, behind: nat, ahead: nat)

  function Current(p: Params): nat
    requires p.step > 0
  {
    p.now / p.step
  }

  /** The oldest counter of the window; the ones below zero are skipped. */
  function Oldest(p: Params): nat
    requires p.step > 0
  {
    if Current(p) < p.behind then 0 else Current(p) - p.behind
  }

  /** The smallest counter from lo to hi whose code is `token`. */
  function FirstMatch(secret: seq<byte>, digits: int, token: nat, lo: nat, hi: nat): (r: Option<nat>)
    ensures r.Some? ==> lo <= r.value <= hi
    decreases hi + 1 - lo
  {
    if hi < lo then None
    else if Hotp(secret, lo, digits) == token then Some(lo)
    else FirstMatch(secret, digits, token, lo + 1, hi)
  }

  /** FirstMatch returns a counter of the range with that code, and none below it has it. */
  lemma {:induction false} FirstMatchIsLeast(secret: seq<byte>, digits: int, token: nat, lo: nat, hi: nat, c: nat)
    ensures var r := FirstMatch(secret, digits, token, lo, hi);
            && (r.Some? ==> Hotp(secret, r.value, digits) == token)
            && (lo <= c <= hi && Hotp(secret, c, digits) == token ==> r.Some? && r.value <= c)
    decreases hi + 1 - lo
  {
    hide Hotp;
    if lo <= hi && Hotp(secret, lo, digits) != token {
      FirstMatchIsLeast(secret, digits, token, lo + 1, hi, c);
    }
  }

  function WindowMatch(secret: seq<byte>, token: nat, p: Params): Option<nat>
    requires p.step > 0
  {
    FirstMatch(secret, p.digits, token, Oldest(p), Current(p) + p.ahead)
  }

  /** totp_validate: the smallest counter of the window that generates the token, if any. */
  method Validate(secret: seq<byte>, token: nat, p: Params) returns (r: Option<nat>)
    requires p.step > 0
    ensures r == WindowMatch(secret, token, p)
  {
    hide Hotp;
    var current := p.now / p.step;
    var d := 0 - p.behind as int;
    while d <= p.ahead
      invariant 0 - p.behind as int <= d <= p.ahead + 1
      invariant current + d >= 0 ==>
        WindowMatch(secret, token, p) == FirstMatch(secret, p.digits, token, current + d, current + p.ahead)
    {
      if d < 0 && current < -d {
        d := d + 1;
        continue;
      }
      var candidate := current + d;
      var code := Generate(secret, candidate, p.digits);
      if code == token {
        return Some(candidate);
      }
      d := d + 1;
    }
    return None;
  }
}
