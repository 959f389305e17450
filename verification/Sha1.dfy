/** SHA-1 as sections 4, 5 and 6.1 of RFC 3174 define it: the specification that the
    streaming context of src/sha1.c is proved against. */
module Sha1Spec {
  import opened Bytes

  const BLOCK_LEN: nat := 64
  const DIGEST_LEN: nat := 20

  /** The five chaining words H0..H4 (and, inside a block, the buffers A..E). */
  datatype Hash = Hash(a: word, b: word, c: word, d: word, e: word)

  const IV: Hash := Hash(0x67452301, 0xefcdab89, 0x98badcfe, 0x10325476, 0xc3d2e1f0)

  type Block = s: seq<byte> | |s| == BLOCK_LEN witness Zeros(64)

  /** The circular left shift S^n(X) of section 3, written as the ROTL macro writes it. */
  function Rotl(x: word, n: nat): word
    requires 0 < n < 32
  {
    (x << n) | (x >> (32 - n))
  }

  /** Word t of the message schedule (steps a and b of section 6.1). */
  function Schedule(block: Block, t: nat): word {
    if t < 16 then BytesWord(block[4 * t..4 * t + 4])
    else Mix(Schedule(block, t - 3), Schedule(block, t - 8), Schedule(block, t - 14), Schedule(block, t - 16))
  }

  function Mix(w3: word, w8: word, w14: word, w16: word): word { Rotl(w3 ^ w8 ^ w14 ^ w16, 1) }

  /** The three logical functions of section 5. */
  function Choose(b: word, c: word, d: word): word { (b & c) | (!b & d) }
  function Parity(b: word, c: word, d: word): word { b ^ c ^ d }
  function Majority(b: word, c: word, d: word): word { (b & c) | (b & d) | (c & d) }

  function Logic(t: nat, b: word, c: word, d: word): word {
    if t < 20 then Choose(b, c, d) else if t < 40 then Parity(b, c, d)
    else if t < 60 then Majority(b, c, d) else Parity(b, c, d)
  }

  /** The constant K(t) of section 5. */
  function Constant(t: nat): word {
    if t < 20 then 0x5a827999 else if t < 40 then 0x6ed9eba1 else if t < 60 then 0x8f1bbcdc else 0xca62c1d6
  }

  /** Where a bit of b is set the choice is c's, elsewhere d's. */
  lemma ChooseSelects(b: word, c: word, d: word)
    ensures Choose(b, c, d) & b == c & b && Choose(b, c, d) & !b == d & !b
  {
  }

  /** Where two of them agree the majority is theirs. */
  lemma MajorityAgrees(b: word, c: word, d: word)
    ensures Majority(b, c, d) & !(b ^ c) == b & !(b ^ c)
    ensures Majority(b, c, d) & (b ^ c) == d & (b ^ c)
  {
  }

  lemma RotlRotates(x: word)
    ensures Rotl(x, 1) == x.RotateLeft(1) && Rotl(x, 5) == x.RotateLeft(5) && Rotl(x, 30) == x.RotateLeft(30)
  {
  }

  /** K(t) is the whole part of 2^30 times the square root of 2, 3, 5 and 10. */
  lemma ConstantRoots(t: nat)
    ensures var k := Constant(t) as nat;
            var n := if t < 20 then 2 else if t < 40 then 3 else if t < 60 then 5 else 10;
            k * k <= n * 0x1000_0000_0000_0000 < (k + 1) * (k + 1)
  {
  }

  /** Step d of section 6.1 for one t. */
  function Round(t: nat, w: word, s: Hash): Hash {
    Hash(Temp(s.a, Logic(t, s.b, s.c, s.d), s.e, Constant(t), w), s.a, Rotl(s.b, 30), s.c, s.d)
  }

  /** The sum TEMP of step d, modulo 2^32. */
  function Temp(a: word, f: word, e: word, k: word, w: word): word { Rotl(a, 5) + f + e + k + w }

  /** The whole 80-word message schedule of a block. */
  function ScheduleWords(block: Block): (w: seq<word>)
    ensures |w| == 80 && forall t :: 0 <= t < 80 ==> w[t] == Schedule(block, t)
  {
    seq(80, t requires 0 <= t < 80 => Schedule(block, t))
  }

  /** The buffers after one round for each of the schedule words `w`. */
  function Rounds(h: Hash, w: seq<word>): Hash {
    if |w| == 0 then h else Round(|w| - 1, w[|w| - 1], Rounds(h, w[..|w| - 1]))
  }

  function Compress(h: Hash, block: Block): Hash {
    var s := Rounds(h, ScheduleWords(block));
    Hash(Plus(h.a, s.a), Plus(h.b, s.b), Plus(h.c, s.c), Plus(h.d, s.d), Plus(h.e, s.e))
  }

  function Plus(x: word, y: word): word { x + y }

  /** Chaining value after the first k blocks of `m`. */
  function Chain(m: seq<byte>, k: nat): Hash
    requires 64 * k <= |m|
  {
    if k == 0 then IV else Compress(Chain(m, k - 1), m[64 * (k - 1)..64 * k])
  }

  /** The 64-bit message length in bits, most significant byte first. */
  function LengthField(n: nat): (f: seq<byte>)
    ensures |f| == 8
  {
    BigEndian(n * 8 % TWO64, 8)
  }

  /** The least k with (n + 1 + k) mod 64 == 56. */
  function PadZeros(n: nat): (k: nat)
    ensures k < 64 && (n + 1 + k) % 64 == 56
  {
    (119 - n % 64) % 64
  }

  /** Section 4: a one bit, zeros, and the length. */
  function Pad(m: seq<byte>): (p: seq<byte>)
    ensures |p| % BLOCK_LEN == 0
  {
    PaddedLength(|m|);
    m + [0x80] + Zeros(PadZeros(|m|)) + LengthField(|m|)
  }

  lemma PaddedLength(n: nat)
    ensures (n + 1 + PadZeros(n) + 8) % 64 == 0
  {
  }

  function HashBytes(h: Hash): (b: seq<byte>)
    ensures |b| == DIGEST_LEN
  {
    WordBytes(h.a) + WordBytes(h.b) + WordBytes(h.c) + WordBytes(h.d) + WordBytes(h.e)
  }

  /** The SHA-1 digest of a message. */
  function Sha1(m: seq<byte>): (digest: seq<byte>)
    ensures |digest| == DIGEST_LEN
  {
    var p := Pad(m);
    HashBytes(Chain(p, |p| / 64))
  }

  /** Later bytes do not change the hash of the blocks before them. */
  lemma {:induction false} ChainPrefix(m: seq<byte>, more: seq<byte>, k: nat)
    requires 64 * k <= |m|
    ensures Chain(m + more, k) == Chain(m, k)
  {
    hide Compress;
    if k > 0 {
      ChainPrefix(m, more, k - 1);
      assert (m + more)[64 * (k - 1)..64 * k] == m[64 * (k - 1)..64 * k];
    }
  }
}

/** The streaming context of src/sha1.c. */
module Sha1Stream {
  import opened Bytes
  import opened Sha1Spec

  class Context {
    const h: array<word>
    const buf: array<byte>
    var count: nat

    /** The context has absorbed exactly the bytes `m`. */
    ghost predicate Absorbed(m: seq<byte>)
      reads this, h, buf
    {
      && Shape()
      && count == |m| % TWO64
      && Chaining() == Chain(m, |m| / 64)
      && buf[..|m| % 64] == m[64 * (|m| / 64)..]
    }

    ghost predicate Shape() {
      h.Length == 5 && buf.Length == BLOCK_LEN
    }

    ghost function Chaining(): Hash
      requires Shape()
      reads h
    {
      Hash(h[0], h[1], h[2], h[3], h[4])
    }

    /** Allocation followed by sha1_init. */
    constructor ()
      ensures Absorbed([]) && fresh(h) && fresh(buf)
    {
      h := new word[5] [0x67452301, 0xefcdab89, 0x98badcfe, 0x10325476, 0xc3d2e1f0];
      buf := new byte[64];
      count := 0;
    }

    /** memcpy into the block buffer. */
    method Fill(at: nat, data: seq<byte>)
      requires Shape() && at + |data| <= BLOCK_LEN
      modifies buf
      ensures buf[..] == old(buf[..at]) + data + old(buf[at + |data|..])
    {
      forall i | 0 <= i < |data| {
        buf[at + i] := data[i];
      }
    }

    /** The first loop of process_block: the sixteen words of the block. */
    method LoadBlock(w: array<word>)
      requires Shape() && w.Length == 80 && w != h
      modifies w
      ensures forall j :: 0 <= j < 16 ==> w[j] == Schedule(buf[..], j)
    {
      hide Schedule, Pack;
      for t := 0 to 16
        invariant forall j :: 0 <= j < t ==> w[j] == Schedule(buf[..], j)
      {
        w[t] := Pack(buf[4 * t], buf[4 * t + 1], buf[4 * t + 2], buf[4 * t + 3]);
        LoadWord(buf[..], t);
      }
    }

    /** The two loops of process_block that fill W. */
    method ExpandSchedule() returns (w: array<word>)
      requires Shape()
      ensures fresh(w) && w.Length == 80
      ensures forall j :: 0 <= j < 80 ==> w[j] == Schedule(buf[..], j)
    {
      hide Schedule, Mix;
      w := new word[80];
      LoadBlock(w);
      ghost var block: Block := buf[..];
      for t := 16 to 80
        invariant forall j :: 0 <= j < t ==> w[j] == Schedule(block, j)
      {
        w[t] := Mix(w[t - 3], w[t - 8], w[t - 14], w[t - 16]);
        NextWord(block, t);
      }
    }

    /** The four-way choice of f and k inside the 80-round loop. */
    method RoundFunction(t: nat, b: word, c: word, d: word) returns (f: word, k: word)
      ensures f == Logic(t, b, c, d) && k == Constant(t)
    {
      if t < 20 {
        f, k := Choose(b, c, d), 0x5a827999;
      } else if t < 40 {
        f, k := Parity(b, c, d), 0x6ed9eba1;
      } else if t < 60 {
        f, k := Majority(b, c, d), 0x8f1bbcdc;
      } else {
        f, k := Parity(b, c, d), 0xca62c1d6;
      }
    }

    method ProcessBlock()
      requires Shape()
      modifies h
      ensures Chaining() == Compress(old(Chaining()), buf[..])
    {
      var w := ExpandSchedule();
      ghost var words := w[..];
      assert words == ScheduleWords(buf[..]);
      var s := Hash(h[0], h[1], h[2], h[3], h[4]);
      for t := 0 to 80
        invariant Chaining() == old(Chaining()) && w[..] == words
        invariant s == Rounds(old(Chaining()), w[..t])
      {
        var f, k := RoundFunction(t, s.b, s.c, s.d);
        var temp := Temp(s.a, f, s.e, k, w[t]);
        s := Hash(temp, s.a, Rotl(s.b, 30), s.c, s.d);
        assert w[..t + 1][..t] == w[..t];
      }
      assert w[..80] == words;
      h[0], h[1], h[2], h[3], h[4] :=
        Plus(h[0], s.a), Plus(h[1], s.b), Plus(h[2], s.c), Plus(h[3], s.d), Plus(h[4], s.e);
      assert buf[..] == old(buf[..]);
    }

    /** sha1_update: whatever the split, the context stands for the concatenation. */
    method Update(ghost m: seq<byte>, data: seq<byte>)
      requires Absorbed(m)
      modifies this, h, buf
      ensures Absorbed(m + data)
    {
      hide Compress, Chain;
      CountResidues(|m|, |data|);
      var idx := count % BLOCK_LEN;
      count := (count + |data|) % TWO64;
      ghost var k := |m| / 64;
      ChainPrefix(m, data, k);
      if idx > 0 {
        var avail := BLOCK_LEN - idx;
        if |data| < avail {
          Fill(idx, data);
          Boundary(m, data);
          return;
        }
        TopUp(m, data, idx);
        AbsorbRest(m + data, k + 1, data[avail..]);
      } else {
        AbsorbRest(m + data, k, data);
      }
    }

    /** sha1_update completing the block it found half full. */
    method TopUp(ghost m: seq<byte>, data: seq<byte>, idx: nat)
      requires Shape() && idx == |m| % 64 > 0 && 64 - idx <= |data|
      requires buf[..idx] == m[64 * (|m| / 64)..] && Chaining() == Chain(m + data, |m| / 64)
      modifies h, buf
      ensures Chaining() == Chain(m + data, |m| / 64 + 1)
    {
      hide Compress;
      ghost var all, k := m + data, |m| / 64;
      TopUpBlock(m, data, k, idx);
      Fill(idx, data[..64 - idx]);
      assert buf[..] == all[64 * k..64 * (k + 1)];
      ProcessBlock();
    }

    /** The block loop and the tail copy of sha1_update. */
    method AbsorbRest(ghost all: seq<byte>, ghost k: nat, data: seq<byte>)
      requires Shape() && count == |all| % TWO64
      requires 64 * k <= |all| && all[64 * k..] == data && Chaining() == Chain(all, k)
      modifies h, buf
      ensures Absorbed(all)
    {
      hide Compress;
      var off := 0;
      ghost var j := k;
      while |data| - off >= BLOCK_LEN
        invariant 0 <= off <= |data| && off == 64 * (j - k)
        invariant k <= j && 64 * j <= |all| && Chaining() == Chain(all, j)
      {
        Fill(0, data[off..off + 64]);
        assert buf[..] == all[64 * j..64 * (j + 1)];
        ProcessBlock();
        off, j := off + 64, j + 1;
      }
      assert |all| / 64 == j && |all| % 64 == |data| - off;
      if |data| - off > 0 {
        Fill(0, data[off..]);
      }
    }

    /** sha1_final: the digest of everything absorbed, on either side of the 56-byte boundary. */
    method Final(ghost m: seq<byte>) returns (out: seq<byte>)
      requires Absorbed(m)
      modifies h, buf
      ensures out == Sha1(m)
    {
      hide Compress, LengthField, PadZeros;
      CountResidues(|m|, 0);
      var bits := count * 8 % TWO64;
      var idx := count % BLOCK_LEN;
      ghost var k, rest := |m| / 64, buf[..idx];
      Fill(idx, [0x80]);
      idx := idx + 1;
      assert buf[..idx] == rest + [0x80];
      PadChain(m);
      if idx > 56 {
        Fill(idx, Zeros(BLOCK_LEN - idx));
        assert buf[..] == rest + [0x80] + Zeros(63 - |rest|);
        PadTwoBlocks(m, |m| / 64, |m| % 64);
        ProcessBlock();
        idx := 0;
        k := k + 1;
        assert buf[..idx] + Zeros(56 - idx) == Zeros(56);
      } else {
        PadOneBlock(m, |m| / 64, |m| % 64);
      }
      LastBlock(m, k, idx, bits);
      out := Output();
    }

    /** The zero fill, the length and the last compression of sha1_final. */
    method LastBlock(ghost m: seq<byte>, ghost k: nat, idx: nat, bits: nat)
      requires Shape() && idx <= 56 && bits == |m| * 8 % TWO64
      requires |Pad(m)| == 64 * (k + 1) && Chaining() == Chain(Pad(m), k)
      requires Pad(m)[64 * k..] == buf[..idx] + Zeros(56 - idx) + LengthField(|m|)
      modifies h, buf
      ensures Chaining() == Chain(Pad(m), |Pad(m)| / 64)
    {
      hide Compress, Pad, Chain, LengthField, Zeros;
      ghost var kept := buf[..idx];
      Fill(idx, Zeros(56 - idx));
      assert buf[..56] == kept + Zeros(56 - idx);
      WriteLength(bits);
      assert LengthField(|m|) == BigEndian(bits, 8) by { LengthBytes(|m|, bits); }
      assert buf[..] == kept + Zeros(56 - idx) + LengthField(|m|);
      ChainLast(Pad(m), k);
      WholeBlocks(|Pad(m)|, k + 1);
      ProcessBlock();
    }

    /** The loop of sha1_final that stores the bit count. */
    method WriteLength(bits: nat)
      requires Shape()
      modifies buf
      ensures buf[..] == old(buf[..56]) + BigEndian(bits, 8)
    {
      for i := 0 to 8
        invariant buf[..56] == old(buf[..56])
        invariant forall j :: 0 <= j < i ==> buf[56 + j] == BigEndian(bits, 8)[j]
      {
        buf[56 + i] := ByteOf(ShiftRight(bits, 7 - i) % 256);
        BigEndianAt(bits, 8, i);
      }
    }

    /** The loop of sha1_final that writes out the five words. */
    method Output() returns (out: seq<byte>)
      requires Shape()
      ensures out == HashBytes(Chaining())
    {
      hide WordBytes;
      out := [];
      for i := 0 to 5
        invariant out == HashBytes(Chaining())[..4 * i]
      {
        out := out + WordBytes(h[i]);
      }
    }
  }

  /** Fewer bytes than complete the block only extend its buffered part. */
  lemma Boundary(m: seq<byte>, data: seq<byte>)
    requires |m| % 64 + |data| < 64
    ensures |m + data| / 64 == |m| / 64 && |m + data| % 64 == |m| % 64 + |data|
    ensures (m + data)[64 * (|m| / 64)..] == m[64 * (|m| / 64)..] + data
  {
  }

  /** sha1: one call each of init, update and final. */
  method Digest(m: seq<byte>) returns (out: seq<byte>)
    ensures out == Sha1(m)
  {
    var ctx := new Context();
    ctx.Update([], m);
    assert [] + m == m;
    out := ctx.Final(m);
  }

  /** The first n chunks, one after the other. */
  function Concat(chunks: seq<seq<byte>>, n: nat): seq<byte>
    requires n <= |chunks|
  {
    if n == 0 then [] else Concat(chunks, n - 1) + chunks[n - 1]
  }

  /** Every way of cutting a message into update calls yields the one-shot digest. */
  method DigestChunks(chunks: seq<seq<byte>>) returns (out: seq<byte>)
    ensures out == Sha1(Concat(chunks, |chunks|))
  {
    hide Context.Absorbed, Sha1;
    var ctx := new Context();
    for i := 0 to |chunks|
      invariant ctx.Absorbed(Concat(chunks, i)) && fresh(ctx) && fresh(ctx.h) && fresh(ctx.buf)
    {
      ctx.Update(Concat(chunks, i), chunks[i]);
    }
    out := ctx.Final(Concat(chunks, |chunks|));
  }

  /** Padding does not change the hash of the whole blocks. */
  lemma PadChain(m: seq<byte>)
    ensures Chain(Pad(m), |m| / 64) == Chain(m, |m| / 64)
  {
    hide Chain, LengthField, PadZeros, Zeros;
    assert 64 * (|m| / 64) <= |m|;
    var more := [0x80] + Zeros(PadZeros(|m|)) + LengthField(|m|);
    Assoc(m, [0x80], Zeros(PadZeros(|m|)), LengthField(|m|));
    ChainPrefix(m, more, |m| / 64);
  }

  /** With at most 55 bytes buffered the padding closes the current block. */
  lemma PadOneBlock(m: seq<byte>, k: nat, r: nat)
    requires |m| == 64 * k + r && r < 56
    ensures var p := Pad(m);
            && |p| == 64 * (k + 1)
            && p[64 * k..] == m[64 * k..] + [0x80] + Zeros(55 - r) + LengthField(|m|)
  {
    hide LengthField;
    assert PadZeros(|m|) == 55 - r;
  }

  /** With 56 or more it runs over into a block of its own. */
  lemma PadTwoBlocks(m: seq<byte>, k: nat, r: nat)
    requires |m| == 64 * k + r && 56 <= r < 64
    ensures var p := Pad(m);
            && |p| == 64 * (k + 2)
            && p[64 * k..64 * (k + 1)] == m[64 * k..] + [0x80] + Zeros(63 - r)
            && p[64 * (k + 1)..] == Zeros(56) + LengthField(|m|)
  {
    hide LengthField;
    assert PadZeros(|m|) == 119 - r;
  }

  /** Multiples of the modulus do not show. */
  lemma ModShift(d: nat, a: nat, r: nat)
    requires d > 0
    ensures (d * a + r) % d == r % d
  {
    var q, s := r / d, r % d;
    assert r == d * q + s;
    assert d * a + r == (a + q) * d + s;
    DivUnique(d * a + r, d, a + q, s);
    assert (d * a + r) / d * d == (a + q) * d;
  }

  /** Working modulo 2^64 loses neither the buffer index nor the total. */
  lemma CountResidues(n: nat, len: nat)
    ensures n % TWO64 % 64 == n % 64
    ensures (n % TWO64 + len) % TWO64 == (n + len) % TWO64
    ensures n % TWO64 * 8 % TWO64 == n * 8 % TWO64
  {
    var q, r := n / TWO64, n % TWO64;
    assert n == TWO64 * q + r;
    assert TWO64 == 64 * 0x400_0000_0000_0000;
    Residues(n, q, r, len);
  }

  lemma Residues(n: nat, q: nat, r: nat, len: nat)
    requires n == TWO64 * q + r
    ensures r % 64 == n % 64 && (r + len) % TWO64 == (n + len) % TWO64 && r * 8 % TWO64 == n * 8 % TWO64
  {
    ModShift(64, 0x400_0000_0000_0000 * q, r);
    ModShift(TWO64, q, r + len);
    ModShift(TWO64, 8 * q, r * 8);
  }

  lemma LengthBytes(n: nat, bits: nat)
    requires bits == n * 8 % TWO64
    ensures LengthField(n) == BigEndian(bits, 8)
  {
    hide BigEndian;
  }

  lemma WholeBlocks(n: nat, k: nat)
    requires n == 64 * k
    ensures n / 64 == k
  {
  }

  lemma {:induction false} ChainLast(p: seq<byte>, k: nat)
    requires |p| == 64 * (k + 1)
    ensures Chain(p, k + 1) == Compress(Chain(p, k), p[64 * k..])
  {
    hide Compress;
    assert p[64 * k..64 * (k + 1)] == p[64 * k..];
  }

  /** The block that the first bytes of `data` complete. */
  lemma TopUpBlock(m: seq<byte>, data: seq<byte>, k: nat, idx: nat)
    requires |m| == 64 * k + idx && 0 < idx < 64 && 64 - idx <= |data|
    ensures (m + data)[64 * k..64 * (k + 1)] == m[64 * k..] + data[..64 - idx]
  {
  }

  lemma NextWord(block: Block, t: nat)
    requires t >= 16
    ensures Schedule(block, t)
         == Mix(Schedule(block, t - 3), Schedule(block, t - 8), Schedule(block, t - 14), Schedule(block, t - 16))
  {
    hide Mix;
  }

  lemma LoadWord(block: Block, t: nat)
    requires t < 16
    ensures Schedule(block, t) == Pack(block[4 * t], block[4 * t + 1], block[4 * t + 2], block[4 * t + 3])
  {
    assert block[4 * t..4 * t + 4] == [block[4 * t], block[4 * t + 1], block[4 * t + 2], block[4 * t + 3]];
  }
}
