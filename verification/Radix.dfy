/** Positional notation: the arithmetic under the secret encodings. */
module Radix {
  import opened Bytes

  function Power(base: nat, k: nat): nat {
    if k == 0 then 1 else base * Power(base, k - 1)
  }

  /** The number whose digits, most significant first, are `ds`. */
  function Value(base: nat, ds: seq<nat>): nat {
    if |ds| == 0 then 0 else base * Value(base, ds[..|ds| - 1]) + ds[|ds| - 1]
  }

  function Quot(n: nat, base: nat): nat
    requires base > 0
  {
    n / base
  }

  function Rem(n: nat, base: nat): (r: nat)
    requires base > 0
    ensures r < base
  {
    n % base
  }

  lemma QuotRem(n: nat, base: nat)
    requires base > 0
    ensures n == base * Quot(n, base) + Rem(n, base)
  {
  }

  /** The k low-order digits of n. */
  function Digits(base: nat, n: nat, k: nat): (ds: seq<nat>)
    requires base > 0
    ensures |ds| == k && forall i :: 0 <= i < k ==> ds[i] < base
    decreases k
  {
    if k == 0 then [] else Digits(base, Quot(n, base), k - 1) + [Rem(n, base)]
  }

  ghost predicate AreDigits(base: nat, ds: seq<nat>) {
    forall i :: 0 <= i < |ds| ==> ds[i] < base
  }

  lemma DivMod(base: nat, q: nat, d: nat)
    requires d < base
    ensures Quot(base * q + d, base) == q && Rem(base * q + d, base) == d
  {
    DivUnique(base * q + d, base, q, d);
  }

  lemma DivLess(n: nat, base: nat, p: nat)
    requires base > 0 && n < base * p
    ensures Quot(n, base) < p
  {
    hide Quot, Rem;
    QuotRem(n, base);
    Scale(base, Quot(n, base), p);
  }

  lemma Scale(base: nat, a: nat, b: nat)
    ensures a >= b ==> base * a >= base * b
  {
  }

  lemma {:induction false} DigitsOfValue(base: nat, ds: seq<nat>)
    requires AreDigits(base, ds) && base > 0
    ensures Digits(base, Value(base, ds), |ds|) == ds
  {
    hide Quot, Rem;
    if |ds| > 0 {
      var init, last := ds[..|ds| - 1], ds[|ds| - 1];
      DigitsOfValue(base, init);
      DivMod(base, Value(base, init), last);
      assert ds == init + [last];
    }
  }

  lemma {:induction false} ValueOfDigits(base: nat, n: nat, k: nat)
    requires base > 0 && n < Power(base, k)
    ensures Value(base, Digits(base, n, k)) == n
    decreases k
  {
    hide Quot, Rem;
    if k > 0 {
      DivLess(n, base, Power(base, k - 1));
      ValueOfDigits(base, Quot(n, base), k - 1);
      assert Digits(base, n, k)[..k - 1] == Digits(base, Quot(n, base), k - 1);
      QuotRem(n, base);
    }
  }

  lemma {:induction false} ValueBound(base: nat, ds: seq<nat>)
    requires AreDigits(base, ds)
    ensures Value(base, ds) < Power(base, |ds|)
  {
    if |ds| > 0 {
      ValueBound(base, ds[..|ds| - 1]);
      BoundStep(base, Value(base, ds[..|ds| - 1]), ds[|ds| - 1], Power(base, |ds| - 1));
    }
  }

  lemma BoundStep(base: nat, v: nat, d: nat, p: nat)
    requires v < p && d < base
    ensures base * v + d < base * p
  {
    assert base * (v + 1) <= base * p;
  }

  /** Zero digits appended on the right multiply by a power of the base. */
  lemma {:induction false} ValueShift(base: nat, ds: seq<nat>, k: nat)
    ensures Value(base, ds + seq(k, _ => 0)) == Value(base, ds) * Power(base, k)
  {
    if k == 0 {
      assert ds + seq(0, _ => 0) == ds;
    } else {
      ValueShift(base, ds, k - 1);
      var all := ds + seq(k, _ => 0);
      assert all[..|all| - 1] == ds + seq(k - 1, _ => 0);
      ShiftStep(base, Value(base, ds), Power(base, k - 1));
    }
  }

  lemma ShiftStep(base: nat, v: nat, p: nat)
    ensures base * (v * p) == v * (base * p)
  {
  }

  // ---- bytes --------------------------------------------------------------------------------

  /** The number whose big-endian bytes are `b`. */
  function Number(b: seq<byte>): nat {
    if |b| == 0 then 0 else 256 * Number(b[..|b| - 1]) + b[|b| - 1] as nat
  }

  lemma LastByte(q: nat, last: byte)
    ensures (256 * q + last as nat) / 256 == q && ByteOf((256 * q + last as nat) % 256) == last
  {
    hide ByteOf;
    var d := last as nat;
    assert (256 * q + d) / 256 == q && (256 * q + d) % 256 == d;
    SameByte(ByteOf(d), last);
  }

  lemma AppendByte(q: nat, k: nat, last: byte)
    ensures BigEndian(256 * q + last as nat, k + 1) == BigEndian(q, k) + [last]
  {
    hide ByteOf;
    LastByte(q, last);
  }

  lemma {:induction false} BytesOfNumber(b: seq<byte>)
    ensures BigEndian(Number(b), |b|) == b
  {
    hide BigEndian;
    if |b| > 0 {
      var init, last := b[..|b| - 1], b[|b| - 1];
      BytesOfNumber(init);
      AppendByte(Number(init), |init|, last);
      assert b == init + [last];
    } else {
      NoBytes();
    }
  }

  lemma NoBytes()
    ensures BigEndian(0, 0) == []
  {
  }

  lemma {:induction false} NumberOfBytes(n: nat, k: nat)
    requires n < Pow256(k)
    ensures Number(BigEndian(n, k)) == n
  {
    if k > 0 {
      NumberOfBytes(n / 256, k - 1);
      assert BigEndian(n, k)[..k - 1] == BigEndian(n / 256, k - 1);
    }
  }

  lemma {:induction false} NumberBound(b: seq<byte>)
    ensures Number(b) < Pow256(|b|)
  {
    if |b| > 0 {
      NumberBound(b[..|b| - 1]);
    }
  }

  /** The leading bytes of a field are the bytes of the number shifted right. */
  lemma {:induction false} BigEndianPrefix(n: nat, k: nat, j: nat)
    ensures BigEndian(n, k + j)[..k] == BigEndian(ShiftRight(n, j), k)
  {
    if j > 0 {
      BigEndianPrefix(n / 256, k, j - 1);
      assert BigEndian(n, k + j)[..k] == BigEndian(n / 256, k + (j - 1))[..k];
    }
  }
}
