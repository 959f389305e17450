/** src/hmac.c: HMAC-SHA1 against section 2 of RFC 2104. */
module Hmac {
  import opened Bytes
  import opened Sha1Spec
  import Sha1Stream

  const IPAD: byte := 0x36
  const OPAD: byte := 0x5c

  function Xor(x: byte, y: byte): byte { x ^ y }

  /** Every byte of `k` xored with the pad byte. */
  function XorPad(k: seq<byte>, pad: byte): (r: seq<byte>)
    ensures |r| == |k| && forall i :: 0 <= i < |k| ==> r[i] == Xor(k[i], pad)
  {
    seq(|k|, i requires 0 <= i < |k| => Xor(k[i], pad))
  }

  /** The key made exactly one block long: hashed first when it is longer. */
  function KeyBlock(key: seq<byte>): (k: seq<byte>)
    ensures |k| == BLOCK_LEN
  {
    var short := if |key| > BLOCK_LEN then Sha1(key) else key;
    short + Zeros(BLOCK_LEN - |short|)
  }

  /** H(K XOR opad, H(K XOR ipad, text)). */
  function HmacSha1(key: seq<byte>, text: seq<byte>): (mac: seq<byte>)
    ensures |mac| == DIGEST_LEN
  {
    var k := KeyBlock(key);
    Sha1(XorPad(k, OPAD) + Sha1(XorPad(k, IPAD) + text))
  }

  /** One of the three in-place loops over k. */
  method XorInPlace(k: array<byte>, pad: byte)
    modifies k
    ensures k[..] == XorPad(old(k[..]), pad)
  {
    for i := 0 to k.Length
      invariant k[..i] == XorPad(old(k[..]), pad)[..i]
      invariant k[i..] == old(k[i..])
    {
      k[i] := Xor(k[i], pad);
    }
  }

  /** init, two updates and final: the digest of a concatenation. */
  method HashPair(first: seq<byte>, second: seq<byte>) returns (out: seq<byte>)
    ensures out == Sha1(first + second)
  {
    var ctx := new Sha1Stream.Context();
    ctx.Update([], first);
    assert [] + first == first;
    ctx.Update(first, second);
    out := ctx.Final(first + second);
  }

  lemma XorUndo(x: byte)
    ensures Xor(Xor(Xor(x, IPAD), IPAD), OPAD) == Xor(x, OPAD)
  {
  }

  /** Section 2 of RFC 2104 in numbers: a key longer than 64 bytes is hashed, zeros fill it up to 64, and
      the inner and outer pads are 0x36 and 0x5c. */
  lemma HmacMeans(key: seq<byte>, text: seq<byte>)
    ensures var short := if |key| > 64 then Sha1(key) else key;
            var inner := seq(64, i requires 0 <= i < 64 => if i < |short| then short[i] ^ 0x36 else 0x36);
            var outer := seq(64, i requires 0 <= i < 64 => if i < |short| then short[i] ^ 0x5c else 0x5c);
            HmacSha1(key, text) == Sha1(outer + Sha1(inner + text))
  {
    hide Sha1;
    var short := if |key| > 64 then Sha1(key) else key;
    PadMeans(short, IPAD);
    PadMeans(short, OPAD);
  }

  lemma PadMeans(short: seq<byte>, pad: byte)
    requires |short| <= 64
    ensures XorPad(short + Zeros(64 - |short|), pad)
         == seq(64, i requires 0 <= i < 64 => if i < |short| then short[i] ^ pad else pad)
  {
    XorZero(pad);
  }

  lemma XorZero(pad: byte)
    ensures 0 ^ pad == pad
  {
  }

  method ComputeHmac(key: seq<byte>, text: seq<byte>) returns (mac: seq<byte>)
    ensures mac == HmacSha1(key, text)
  {
    hide Sha1;
    var short := key;
    if |key| > BLOCK_LEN {
      short := Sha1Stream.Digest(key);
    }
    var k := new byte[64](i => if 0 <= i < |short| then short[i] else 0);
    assert k[..] == KeyBlock(key);
    XorInPlace(k, IPAD);
    var inner := HashPair(k[..], text);
    XorInPlace(k, IPAD);
    XorInPlace(k, OPAD);
    forall i | 0 <= i < 64
      ensures k[..][i] == XorPad(KeyBlock(key), OPAD)[i]
    {
      XorUndo(KeyBlock(key)[i]);
    }
    assert k[..] == XorPad(KeyBlock(key), OPAD);
    mac := HashPair(k[..], inner);
  }
}
