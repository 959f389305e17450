/** Bytes, machine words and the few byte-string helpers shared by every component. */
module Bytes {

  type byte = bv8
  type word = bv32

  datatype Option<+T> = None | Some(value: T)

  /** The modulus of a 32-bit and of a 64-bit unsigned counter. */
  const TWO32: nat := 0x1_0000_0000
  const TWO64: nat := 0x1_0000_0000_0000_0000

  /** `n` zero bytes, what memset(p, 0, n) leaves behind. */
  function Zeros(n: nat): (z: seq<byte>)
    ensures |z| == n && forall i :: 0 <= i < n ==> z[i] == 0
  {
    seq(n, _ => 0 as byte)
  }

  lemma Assoc(a: seq<byte>, b: seq<byte>, c: seq<byte>, d: seq<byte>)
    ensures a + b + c + d == a + (b + c + d)
  {
  }

  /** The big-endian bytes of a 32-bit word. */
  function WordBytes(w: word): (b: seq<byte>)
    ensures |b| == 4
  {
    [(w >> 24) as byte, ((w >> 16) & 0xff) as byte, ((w >> 8) & 0xff) as byte, (w & 0xff) as byte]
  }

  /** The 32-bit word whose big-endian bytes are `b`. */
  function BytesWord(b: seq<byte>): (w: word)
    requires |b| == 4
  {
    Pack(b[0], b[1], b[2], b[3])
  }

  function Pack(b0: byte, b1: byte, b2: byte, b3: byte): word {
    (b0 as word << 24) | (b1 as word << 16) | (b2 as word << 8) | b3 as word
  }

  /** The conversion (unsigned char) of a number below 256. Counting up keeps the proofs inside
      bit-vector arithmetic. */
  function ByteOf(n: nat): (b: byte)
    requires n < 256
    ensures b as nat == n
  {
    if n == 0 then 0
    else
      var p := ByteOf(n - 1);
      NextByte(p);
      p + 1
  }

  lemma NextByte(b: byte)
    requires b as nat < 255
    ensures (b + 1) as nat == b as nat + 1
  {
  }

  /** A byte is determined by its number. */
  lemma SameByte(x: byte, y: byte)
    requires x as nat == y as nat
    ensures x == y
  {
  }

  function Pow256(k: nat): (p: nat)
    ensures p > 0
  {
    if k == 0 then 1 else 256 * Pow256(k - 1)
  }

  /** A right shift by j bytes. */
  function ShiftRight(n: nat, j: nat): nat
    decreases j
  {
    if j == 0 then n else ShiftRight(n / 256, j - 1)
  }

  /** The `k` low-order bytes of `n`, most significant first. */
  function BigEndian(n: nat, k: nat): (b: seq<byte>)
    ensures |b| == k
  {
    if k == 0 then [] else BigEndian(n / 256, k - 1) + [ByteOf(n % 256)]
  }

  /** Byte i of a big-endian field is the number shifted right by the bytes behind it. */
  lemma {:induction false} BigEndianAt(n: nat, k: nat, i: nat)
    requires i < k
    ensures BigEndian(n, k)[i] == ByteOf(ShiftRight(n, k - 1 - i) % 256)
  {
    if i < k - 1 {
      BigEndianAt(n / 256, k - 1, i);
    }
  }

  /** Shifting by j bytes divides by 256^j. */
  lemma {:induction false} ShiftDivides(n: nat, j: nat)
    ensures ShiftRight(n, j) == n / Pow256(j)
    decreases j
  {
    if j > 0 {
      ShiftDivides(n / 256, j - 1);
      DivDiv(n, Pow256(j - 1));
    }
  }

  lemma DivDiv(n: nat, p: nat)
    requires p > 0
    ensures n / 256 / p == n / (256 * p)
  {
    var q := n / 256 / p;
    var r := n / 256 % p;
    assert n / 256 == q * p + r;
    var s := n % 256;
    assert n == 256 * (q * p + r) + s == q * (256 * p) + (256 * r + s);
    assert 0 <= 256 * r + s < 256 * p;
    DivUnique(n, 256 * p, q, 256 * r + s);
  }

  lemma DivUnique(n: nat, d: nat, q: nat, r: nat)
    requires d > 0 && r < d && n == q * d + r
    ensures n / d == q
  {
    var k := n / d - q;
    assert k * d == n / d * d - q * d == r - n % d;
    assert k >= 1 ==> k * d >= d;
    assert k <= -1 ==> k * d <= -1 * d;
  }
}
