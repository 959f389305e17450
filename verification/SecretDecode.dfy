/** src/encode.c in place: the three decoders writing into a bounded buffer, and the prefix dispatch. */
module SecretDecode {
  import opened Bytes
  import opened Radix
  import opened Encode

  // ---- hexadecimal ------------------------------------------------------------------------

  function HexVal(c: char): (v: int)
    ensures -1 <= v < 16
  {
    if '0' <= c <= '9' then c as int - '0' as int
    else if 'a' <= c <= 'f' then c as int - 'a' as int + 10
    else if 'A' <= c <= 'F' then c as int - 'A' as int + 10
    else -1
  }

  /** Put bytes already decoded in front of what the rest decodes to. */
  function Prepend(b: seq<byte>, r: Option<seq<byte>>): Option<seq<byte>> {
    match r case None => None case Some(rest) => Some(b + rest)
  }

  function Nibbles(hi: nat, lo: nat): byte
    requires hi < 16 && lo < 16
  {
    ByteOf(16 * hi + lo)
  }

  lemma NibblesOf(b: byte)
    ensures Nibbles(b as nat / 16, b as nat % 16) == b
  {
    var n := b as nat;
    assert 16 * (n / 16) + n % 16 == n;
    SameByte(ByteOf(n), b);
  }

  /** A last unpaired digit is the high nibble of a byte of its own. */
  function HexDecode(s: string): Option<seq<byte>> {
    if |s| == 0 then Some([])
    else if HexVal(s[0]) < 0 then None
    else if |s| == 1 then Some([Nibbles(HexVal(s[0]), 0)])
    else if HexVal(s[1]) < 0 then None
    else Prepend([Nibbles(HexVal(s[0]), HexVal(s[1]))], HexDecode(s[2..]))
  }

  /** The digit of a nibble (section 8 of RFC 4648), in either case. */
  function HexChar(v: nat, upper: bool): char
    requires v < 16
  {
    if v < 10 then ('0' as int + v) as char else ((if upper then 'A' else 'a') as int + (v - 10)) as char
  }

  function HexText(b: seq<byte>, upper: bool): string {
    if |b| == 0 then ""
    else [HexChar(b[0] as nat / 16, upper), HexChar(b[0] as nat % 16, upper)] + HexText(b[1..], upper)
  }

  lemma HexCharVal(v: nat, upper: bool)
    requires v < 16
    ensures HexVal(HexChar(v, upper)) == v
  {
  }

  lemma {:induction false} HexInverts(b: seq<byte>, upper: bool)
    ensures HexDecode(HexText(b, upper)) == Some(b)
  {
    hide HexVal, HexChar, Nibbles;
    if |b| > 0 {
      var n := b[0] as nat;
      HexCharVal(n / 16, upper);
      HexCharVal(n % 16, upper);
      HexInverts(b[1..], upper);
      assert HexText(b, upper)[2..] == HexText(b[1..], upper);
      NibblesOf(b[0]);
      assert [b[0]] + b[1..] == b;
    }
  }

  lemma ZeroDigit()
    ensures HexVal('0') == 0
  {
  }

  /** An odd number of digits decodes as if a zero digit followed (not, as documented, preceded). */
  lemma {:induction false} OddHexPadsRight(s: string)
    requires |s| % 2 == 1
    ensures HexDecode(s) == HexDecode(s + "0")
  {
    hide HexVal, Nibbles;
    if |s| == 1 {
      assert HexVal('0') == 0 by { ZeroDigit(); }
      assert (s + "0")[2..] == "" && HexDecode("") == Some([]);
      if HexVal(s[0]) >= 0 {
        assert [Nibbles(HexVal(s[0]), 0)] + [] == [Nibbles(HexVal(s[0]), 0)];
      }
    } else {
      OddHexPadsRight(s[2..]);
      assert (s + "0")[2..] == s[2..] + "0";
    }
  }

  ghost predicate HexDigits(s: string) {
    forall i :: 0 <= i < |s| ==> HexVal(s[i]) >= 0
  }

  /** Accepted is exactly what consists of hexadecimal digits. */
  lemma {:induction false} HexAccepts(s: string)
    ensures HexDecode(s).Some? <==> HexDigits(s)
  {
    hide HexVal, Nibbles;
    if |s| >= 2 {
      HexAccepts(s[2..]);
      assert forall i :: 2 <= i < |s| ==> s[i] == s[2..][i - 2];
    }
  }

  lemma NibblesDiffer(a: nat, b: nat, c: nat, d: nat)
    requires a < 16 && b < 16 && c < 16 && d < 16
    ensures Nibbles(a, b) == Nibbles(c, d) <==> a == c && b == d
  {
    assert Nibbles(a, b) as nat == 16 * a + b && Nibbles(c, d) as nat == 16 * c + d;
  }

  ghost predicate SameDigits(s: string, t: string) {
    |s| == |t| && forall i :: 0 <= i < |s| ==> HexVal(s[i]) == HexVal(t[i])
  }

  /** Two texts of whole bytes decode alike if and only if they have the same digits. */
  lemma {:induction false} HexSame(s: string, t: string)
    requires |s| == |t| && |s| % 2 == 0 && HexDigits(s) && HexDigits(t)
    ensures HexDecode(s) == HexDecode(t) <==> SameDigits(s, t)
    decreases |s|
  {
    hide HexVal, Nibbles;
    if |s| > 0 {
      var s', t' := s[2..], t[2..];
      HexSame(s', t');
      HexAccepts(s');
      HexAccepts(t');
      NibblesDiffer(HexVal(s[0]), HexVal(s[1]), HexVal(t[0]), HexVal(t[1]));
      assert SameDigits(s, t)
        <==> HexVal(s[0]) == HexVal(t[0]) && HexVal(s[1]) == HexVal(t[1]) && SameDigits(s', t') by {
        assert forall i :: 2 <= i < |s| ==> s[i] == s'[i - 2] && t[i] == t'[i - 2];
        assert forall i :: 0 <= i < |s'| ==> s'[i] == s[i + 2] && t'[i] == t[i + 2];
      }
      HexUnfold(s);
      HexUnfold(t);
      SameFront(Nibbles(HexVal(s[0]), HexVal(s[1])), HexDecode(s').value,
                Nibbles(HexVal(t[0]), HexVal(t[1])), HexDecode(t').value);
    }
  }

  lemma HexUnfold(s: string)
    requires |s| >= 2 && HexVal(s[0]) >= 0 && HexVal(s[1]) >= 0 && HexDecode(s[2..]).Some?
    ensures HexDecode(s) == Some([Nibbles(HexVal(s[0]), HexVal(s[1]))] + HexDecode(s[2..]).value)
  {
    hide HexVal, Nibbles;
  }

  lemma SameFront(x: byte, a: seq<byte>, y: byte, b: seq<byte>)
    ensures [x] + a == [y] + b <==> x == y && a == b
  {
    if [x] + a == [y] + b {
      assert ([x] + a)[1..] == a && ([y] + b)[1..] == b && ([x] + a)[0] == x && ([y] + b)[0] == y;
    }
  }

  ghost predicate OnlyZeros(s: string) {
    forall i :: 0 <= i < |s| ==> s[i] == '0'
  }

  lemma {:induction false} ZerosSpread(s: string, n: nat)
    requires n <= |s| && SameDigits(s + "0", "0" + s)
    ensures OnlyZeros(s[..n])
  {
    if n > 0 {
      ZerosSpread(s, n - 1);
      assert (s + "0")[n - 1] == s[n - 1];
      assert n > 1 ==> ("0" + s)[n - 1] == s[..n - 1][n - 2];
      assert HexVal(s[n - 1]) == 0;
    }
  }

  /** The documented reading, a zero digit in front, agrees with the code on an odd number of digits
      if and only if every digit is zero. */
  lemma LeadingZeroIff(s: string)
    requires |s| % 2 == 1 && HexDigits(s)
    ensures HexDecode(s) == HexDecode("0" + s) <==> OnlyZeros(s)
  {
    hide HexVal, HexDecode;
    ZeroDigit();
    OddHexPadsRight(s);
    HexSame(s + "0", "0" + s);
    if SameDigits(s + "0", "0" + s) {
      ZerosSpread(s, |s|);
      assert s[..|s|] == s;
    }
  }

  // ---- writing into a bounded buffer --------------------------------------------------------

  /** The result of a decoder with capacity `max`: the decoded bytes and their number when they
      fit, a refusal otherwise; bytes beyond the capacity are never touched. */
  ghost predicate Delivered(spec: Option<seq<byte>>, max: nat, r: Option<nat>, out: seq<byte>) {
    && (r.Some? <==> spec.Some? && |spec.value| <= max)
    && (r.Some? ==> r.value == |spec.value| && r.value <= |out| && out[..r.value] == spec.value)
  }

  method DecodeHex(input: string, out: array<byte>, max: nat) returns (r: Option<nat>)
    requires max <= out.Length
    modifies out
    ensures Delivered(HexDecode(input), max, r, out[..]) && out[max..] == old(out[max..])
  {
    hide HexVal, Nibbles;
    if |input| == 0 {
      return Some(0);
    }
    var pos, i := 0, 0;
    PrependNothing(HexDecode(input));
    assert input[0..] == input;
    while i + 1 < |input|
      invariant 0 <= pos <= max && 0 <= i <= |input| && out[max..] == old(out[max..])
      invariant HexDecode(input) == Prepend(out[..pos], HexDecode(input[i..]))
    {
      var hi, lo := HexVal(input[i]), HexVal(input[i + 1]);
      if hi < 0 || lo < 0 {
        return None;
      }
      var b := Nibbles(hi, lo);
      HexStep(input, i, out[..pos]);
      if pos >= max {
        return None;
      }
      ghost var done := out[..pos];
      out[pos] := b;
      assert out[..pos + 1] == done + [b];
      pos, i := pos + 1, i + 2;
    }
    if i < |input| {
      var hi := HexVal(input[i]);
      if hi < 0 {
        return None;
      }
      if pos >= max {
        return None;
      }
      ghost var done := out[..pos];
      out[pos] := Nibbles(hi, 0);
      assert out[..pos + 1] == done + [Nibbles(hi, 0)];
      pos := pos + 1;
    } else {
      assert out[..pos] + [] == out[..pos];
    }
    return Some(pos);
  }

  lemma PrependNothing(r: Option<seq<byte>>)
    ensures Prepend([], r) == r
  {
    if r.Some? {
      assert [] + r.value == r.value;
    }
  }

  lemma PrependTwice(a: seq<byte>, b: seq<byte>, r: Option<seq<byte>>)
    ensures Prepend(a, Prepend(b, r)) == Prepend(a + b, r)
  {
    if r.Some? {
      assert a + (b + r.value) == a + b + r.value;
    }
  }

  lemma HexStep(input: string, i: nat, done: seq<byte>)
    requires i + 1 < |input| && HexVal(input[i]) >= 0 && HexVal(input[i + 1]) >= 0
    ensures var b := Nibbles(HexVal(input[i]), HexVal(input[i + 1]));
            Prepend(done, HexDecode(input[i..])) == Prepend(done + [b], HexDecode(input[i + 2..]))
  {
    hide HexVal, Nibbles;
    assert input[i..][2..] == input[i + 2..];
    PrependTwice(done, [Nibbles(HexVal(input[i]), HexVal(input[i + 1]))], HexDecode(input[i + 2..]));
  }

  // ---- base32 and base64 --------------------------------------------------------------------

  /** struct b32_group and struct b64_group: the values, zero-filled, how many were read, and the
      position behind the group. */
  datatype Group = Group(vals: seq<nat>, m: nat, pos: nat)

  function ZeroVals(n: nat): (z: seq<nat>)
    ensures |z| == n && forall i :: 0 <= i < n ==> z[i] == 0
  {
    seq(n, _ => 0)
  }

  /** The reading loop of b32_read_group and b64_read_group, up to the first character that is not
      of the alphabet. */
  method ReadRun(e: Scheme, input: string, start: nat) returns (vals: seq<nat>)
    requires start <= |input|
    ensures var j := RunLength(e, input[start..], GroupChars(e)); vals == Vals(e, input[start..][..j])
  {
    hide Val;
    vals := [];
    ghost var s := input[start..];
    var j := 0;
    while j < GroupChars(e) && start + j < |input| && Val(e, input[start + j]) >= 0
      invariant 0 <= j <= GroupChars(e) && start + j <= |input|
      invariant (forall i :: 0 <= i < j ==> Val(e, s[i]) >= 0) && vals == Vals(e, s[..j])
    {
      vals := vals + [Val(e, input[start + j])];
      j := j + 1;
      assert s[..j] == s[..j - 1] + [s[j - 1]];
    }
    RunOf(e, s, GroupChars(e), j);
  }

  /** b32_read_group and b64_read_group: what ends the run decides. */
  method ReadGroupAt(e: Scheme, input: string, start: nat) returns (g: Option<Group>)
    requires start < |input|
    ensures g.Some? <==> ReadGroup(e, input[start..]).Some?
    ensures g.Some? ==>
      var (vals, used) := ReadGroup(e, input[start..]).value;
      && g.value.m == |vals| && g.value.vals == vals + ZeroVals(GroupChars(e) - |vals|)
      && g.value.pos >= start + used && (g.value.pos == start + used || start + used == |input|)
  {
    hide BytesFor, Val, RunLength, Vals;
    var vals := ReadRun(e, input, start);
    FullGroup(e);
    var j := |vals|;
    var pos := start + j;
    if BytesFor(e, j) == 0 {
      return None;
    }
    var filled := vals + ZeroVals(GroupChars(e) - j);
    if j == GroupChars(e) || pos >= |input| {
      return Some(Group(filled, j, pos));
    }
    if Val(e, input[pos]) != -2 {
      return None;
    }
    assert input[start..][j..] == input[pos..];
    var end := SkipPadding(input, pos, GroupChars(e) - j);
    return if end.None? then None else Some(Group(filled, j, end.value));
  }

  /** b32_skip_padding and b64_skip_padding: the position may run past the end of the input. */
  method SkipPadding(input: string, start: nat, k: nat) returns (end: Option<nat>)
    requires start <= |input|
    ensures end == if PadsOnly(input[start..], k) then Some(start + k) else None
  {
    var pos := start;
    for j := 0 to k
      invariant pos == start + j && PadsOnly(input[start..], j)
    {
      if pos < |input| && input[pos] != '=' {
        assert input[start..][j] != '=';
        return None;
      }
      pos := pos + 1;
    }
    return Some(pos);
  }

  /** Zero-filling a group and cutting 40 (or 24) bits into bytes decodes it. */
  lemma GroupBits(e: Scheme, vals: seq<nat>)
    requires |vals| <= GroupChars(e) && BytesFor(e, |vals|) > 0 && AreDigits(Base(e), vals)
    ensures var n, bits := BytesFor(e, |vals|), Value(Base(e), vals + ZeroVals(GroupChars(e) - |vals|));
            && n <= GroupBytes(e)
            && BigEndian(bits, GroupBytes(e))[..n] == BigEndian(Quot(Value(Base(e), vals), Spare(e, |vals|)), n)
  {
    hide Value, Power, Pow256, BigEndian, Spare, BytesFor, Base, AreDigits;
    TableRange(e, |vals|);
    var m, g, total := |vals|, GroupChars(e), GroupBytes(e);
    var n, x, q := BytesFor(e, m), Value(Base(e), vals), Spare(e, m);
    var p := Power(Base(e), g - m);
    assert ZeroVals(g - m) == seq(g - m, _ => 0);
    ValueShift(Base(e), vals, g - m);
    Capacity(e, m);
    PowerPositive(Base(e), g - m);
    ShiftedBytes(x, p, q, n, total - n);
  }

  /** The leading n bytes of x * p are those of x / q when the k bytes behind them hold q * p values. */
  lemma ShiftedBytes(x: nat, p: nat, q: nat, n: nat, k: nat)
    requires p > 0 && q > 0 && Pow256(k) == q * p
    ensures BigEndian(x * p, n + k)[..n] == BigEndian(Quot(x, q), n)
  {
    hide BigEndian, Pow256, Quot;
    BigEndianPrefix(x * p, n, k);
    ShiftDivides(x * p, k);
    CancelFactor(x, q, p);
  }

  lemma TableRange(e: Scheme, m: nat)
    requires m <= GroupChars(e)
    ensures BytesFor(e, m) <= GroupBytes(e)
  {
  }

  lemma {:induction false} PowerPositive(base: nat, k: nat)
    requires base > 0
    ensures Power(base, k) > 0
  {
    if k > 0 {
      PowerPositive(base, k - 1);
    }
  }

  lemma CancelFactor(x: nat, q: nat, p: nat)
    requires q > 0 && p > 0
    ensures q * p > 0 && x * p / (q * p) == Quot(x, q)
  {
    var a, r := x / q, x % q;
    assert x == q * a + r;
    assert x * p == a * (q * p) + r * p;
    MulLess(r, q, p);
    DivUnique(x * p, q * p, a, r * p);
  }

  /** The leftover test looks only at the last character read. */
  lemma LeftoverBits(e: Scheme, vals: seq<nat>)
    requires |vals| <= GroupChars(e) && BytesFor(e, |vals|) > 0 && e.B32?
    ensures |vals| > 0
    ensures (Rem(vals[|vals| - 1], Spare(e, |vals|)) == 0 <==> Rem(Value(32, vals), Spare(e, |vals|)) == 0)
  {
    var m := |vals|;
    LowDigit(Value(32, vals[..m - 1]), vals[m - 1], Spare(e, m));
  }

  lemma LowDigit(v: nat, d: nat, q: nat)
    requires q == 1 || q == 2 || q == 4 || q == 8 || q == 16
    ensures Rem(32 * v + d, q) == 0 <==> Rem(d, q) == 0
  {
    var w :=
      if q == 1 then 32 * v else if q == 2 then 16 * v else if q == 4 then 8 * v else if q == 8 then 4 * v else 2 * v;
    assert 32 * v == q * w;
    AddMultiple(q, w, d);
  }

  lemma AddMultiple(q: nat, a: nat, d: nat)
    requires q > 0
    ensures Rem(q * a + d, q) == Rem(d, q)
  {
    hide Rem, Quot;
    QuotRem(d, q);
    assert q * a + d == q * (a + Quot(d, q)) + Rem(d, q);
    DivMod(q, a + Quot(d, q), Rem(d, q));
  }

  /** A full group of base32 takes 40 bits and one of base64 takes 24. */
  function Width(e: Scheme): nat { match e case B32 => 0x100_0000_0000 case B64 => 0x100_0000 }

  lemma GroupWidth(e: Scheme, vals: seq<nat>)
    requires AreDigits(Base(e), vals) && |vals| == GroupChars(e)
    ensures Value(Base(e), vals) < Width(e)
  {
    hide Value;
    ValueBound(Base(e), vals);
    assert Power(64, 4) == Width(B64);
    assert Power(32, 4) == 1024 * 1024;
    assert Power(32, 8) == Width(B32);
  }

  /** The loop over the group's values. Shifting by the bits of a character and or-ing its value in is
      multiplying by the base and adding; the sum stays far below the width of the C variable. */
  method CollectBits(e: Scheme, vals: seq<nat>) returns (bits: nat)
    requires AreDigits(Base(e), vals) && |vals| == GroupChars(e)
    ensures bits == Value(Base(e), vals) && bits < Width(e)
  {
    GroupWidth(e, vals);
    bits := 0;
    for j := 0 to |vals|
      invariant bits == Value(Base(e), vals[..j])
    {
      bits := Base(e) * bits + vals[j];
      assert vals[..j + 1][..j] == vals[..j];
    }
    assert vals[..|vals|] == vals;
  }

  /** The loop that stores the n bytes of a group. */
  method StoreBytes(e: Scheme, bits: nat, n: nat, out: array<byte>, pos: nat)
    requires n <= GroupBytes(e) && pos + n <= out.Length
    modifies out
    ensures out[..] == old(out[..pos]) + BigEndian(bits, GroupBytes(e))[..n] + old(out[pos + n..])
  {
    hide BigEndian, ShiftRight;
    for j := 0 to n
      invariant out[..pos] == old(out[..pos]) && out[pos + n..] == old(out[pos + n..])
      invariant forall i :: 0 <= i < j ==> out[pos + i] == BigEndian(bits, GroupBytes(e))[i]
    {
      BigEndianAt(bits, GroupBytes(e), j);
      out[pos + j] := ByteOf(ShiftRight(bits, GroupBytes(e) - 1 - j) % 256);
    }
  }

  /** One turn of base32_decode or base64_decode: a whole group, or a refusal. */
  method DecodeGroupInto(e: Scheme, g: Group, out: array<byte>, pos: nat, max: nat) returns (n: Option<nat>)
    requires g.m <= GroupChars(e) && BytesFor(e, g.m) > 0 && |g.vals| == GroupChars(e)
    requires AreDigits(Base(e), g.vals[..g.m])
    requires g.vals == g.vals[..g.m] + ZeroVals(GroupChars(e) - g.m) && pos <= max <= out.Length
    modifies out
    ensures out[..pos] == old(out[..pos]) && out[max..] == old(out[max..])
    ensures var b := DecodeGroup(e, g.vals[..g.m]);
            && (n.Some? <==> b.Some? && pos + |b.value| <= max)
            && (n.Some? ==> n.value == |b.value| && out[pos..pos + n.value] == b.value)
  {
    hide BytesFor, Spare, Value, BigEndian;
    var count := BytesFor(e, g.m);
    if pos + count > max {
      return None;
    }
    var bits := CollectBits(e, g.vals);
    if e.B32? {
      LeftoverBits(e, g.vals[..g.m]);
      if Rem(g.vals[g.m - 1], Spare(e, g.m)) != 0 {
        return None;
      }
    }
    GroupBits(e, g.vals[..g.m]);
    StoreBytes(e, bits, count, out, pos);
    return Some(count);
  }

  /** base32_decode and base64_decode. */
  method DecodeInto(e: Scheme, input: string, out: array<byte>, max: nat) returns (r: Option<nat>)
    requires max <= out.Length
    modifies out
    ensures Delivered(Decode(e, input), max, r, out[..]) && out[max..] == old(out[max..])
  {
    hide BytesFor, ReadGroup, DecodeGroup, Base, Decode, Prepend, Rest;
    var pos, i := 0, 0;
    PrependNothing(Decode(e, input));
    WholeRest(input);
    while i < |input|
      invariant 0 <= pos <= max && 0 <= i && out[max..] == old(out[max..])
      invariant Decode(e, input) == Prepend(out[..pos], Decode(e, Rest(input, i)))
      decreases |input| - i
    {
      var g := ReadGroupAt(e, input, i);
      if g.None? {
        NoGroup(e, input, i, out[..pos]);
        return None;
      }
      ghost var (vals, used) := ReadGroup(e, input[i..]).value;
      assert g.value.vals[..g.value.m] == vals;
      ghost var done := out[..pos];
      var n := DecodeGroupInto(e, g.value, out, pos, max);
      GroupStep(e, input, i, done);
      if n.None? {
        if DecodeGroup(e, vals).Some? {
          PrependLength(done + DecodeGroup(e, vals).value, Decode(e, Rest(input, i + used)));
        }
        return None;
      }
      assert out[..pos + n.value] == done + DecodeGroup(e, vals).value;
      SameRest(input, g.value.pos, i + used);
      pos, i := pos + n.value, g.value.pos;
    }
    AllRead(e, input, i, out[..pos]);
    return Some(pos);
  }

  lemma AllRead(e: Scheme, input: string, i: nat, done: seq<byte>)
    requires i >= |input|
    ensures Prepend(done, Decode(e, Rest(input, i))) == Some(done)
  {
    assert done + [] == done;
  }

  lemma NoGroup(e: Scheme, input: string, i: nat, done: seq<byte>)
    requires i < |input| && ReadGroup(e, input[i..]).None?
    ensures Prepend(done, Decode(e, Rest(input, i))) == None
  {
    hide ReadGroup;
  }

  lemma PrependLength(b: seq<byte>, r: Option<seq<byte>>)
    ensures Prepend(b, r).Some? ==> |Prepend(b, r).value| >= |b|
  {
  }

  lemma SameRest(s: string, i: nat, j: nat)
    requires i == j || (i >= j == |s|)
    ensures Rest(s, i) == Rest(s, j)
  {
  }

  lemma WholeRest(s: string)
    ensures Rest(s, 0) == s
  {
    assert s[0..] == s;
  }

  function Rest(s: string, i: nat): string { if i < |s| then s[i..] else "" }

  /** Decoding one group off the front of what is left. */
  lemma GroupStep(e: Scheme, input: string, i: nat, done: seq<byte>)
    requires i < |input| && ReadGroup(e, input[i..]).Some?
    ensures var (vals, used) := ReadGroup(e, input[i..]).value;
            var b := DecodeGroup(e, vals);
            var left := Prepend(done, Decode(e, Rest(input, i)));
            if b.None? then left == None else left == Prepend(done + b.value, Decode(e, Rest(input, i + used)))
  {
    hide BytesFor, ReadGroup, DecodeGroup;
    var (vals, used) := ReadGroup(e, input[i..]).value;
    assert input[i..][used..] == Rest(input, i + used);
    if DecodeGroup(e, vals).Some? {
      PrependTwice(done, DecodeGroup(e, vals).value, Decode(e, Rest(input, i + used)));
    }
  }

  // ---- the prefix dispatch ------------------------------------------------------------------

  datatype Encoding = SecretBase32 | SecretHex | SecretBase64

  /** The decoder the prefix names, applied to what follows it. */
  function Named(input: string): (Encoding, Option<seq<byte>>) {
    if "hex:" <= input then (SecretHex, HexDecode(input[4..]))
    else if "b64:" <= input then (SecretBase64, Decode(B64, input[4..]))
    else (SecretBase32, Decode(B32, input))
  }

  /** The colon of a prefix is foreign to base32, so falling through to it always fails. */
  lemma PrefixIsNotBase32(input: string)
    requires "hex:" <= input || "b64:" <= input
    ensures Decode(B32, input).None?
  {
    assert Val(B32, input[3]) == -1;
    assert RunLength(B32, input, 8) == 3 by {
      assert Val(B32, input[0]) >= 0 && Val(B32, input[1]) >= 0 && Val(B32, input[2]) >= 0;
      RunOf(B32, input, 8, 3);
    }
  }

  /** secret_decode: tries hex, then base64, then base32. Whatever it returns is what exactly the
      decoder named by the prefix returns. */
  method DecodeSecret(input: string, out: array<byte>, max: nat) returns (r: Option<nat>, encoding: Encoding)
    requires max <= out.Length
    modifies out
    ensures Delivered(Named(input).1, max, r, out[..]) && out[max..] == old(out[max..])
    ensures r.Some? ==> encoding == Named(input).0
  {
    hide HexDecode, Decode;
    encoding := SecretBase32;
    if |input| == 0 {
      EmptySecret();
      return Some(0), SecretBase32;
    }
    if |input| >= 4 && input[0] == 'h' && input[1] == 'e' && input[2] == 'x' && input[3] == ':' {
      encoding := SecretHex;
      r := DecodeHex(input[4..], out, max);
      PrefixIsNotBase32(input);
      if r.Some? {
        return;
      }
    } else if |input| >= 4 && input[0] == 'b' && input[1] == '6' && input[2] == '4' && input[3] == ':' {
      encoding := SecretBase64;
      r := DecodeInto(B64, input[4..], out, max);
      PrefixIsNotBase32(input);
      if r.Some? {
        return;
      }
    }
    encoding := SecretBase32;
    r := DecodeInto(B32, input, out, max);
  }

  lemma EmptySecret()
    ensures Decode(B32, "") == Some([])
  {
  }

  /** Any of the three ways to write a secret: base32 (any case, padded or not), hex, base64. */
  ghost predicate Writes(text: string, secret: seq<byte>) {
    || (exists padded :: UpperAll(text) == EncodeText(B32, secret, padded))
    || (exists upper :: text == "hex:" + HexText(secret, upper))
    || (exists padded :: text == "b64:" + EncodeText(B64, secret, padded))
  }

  /** The prefix says which decoder reads the rest. */
  lemma PrefixNames(text: string, secret: seq<byte>, option: bool)
    ensures text == "hex:" + HexText(secret, option) ==> Named(text) == (SecretHex, Some(secret))
    ensures text == "b64:" + EncodeText(B64, secret, option) ==> Named(text) == (SecretBase64, Some(secret))
    ensures UpperAll(text) == EncodeText(B32, secret, option) ==> Named(text) == (SecretBase32, Some(secret))
  {
    hide EncodeText, HexText, HexDecode, Decode, Upper;
    if text == "hex:" + HexText(secret, option) {
      assert text[4..] == HexText(secret, option);
      HexInverts(secret, option);
    } else if text == "b64:" + EncodeText(B64, secret, option) {
      assert text[0] == 'b' && text[4..] == EncodeText(B64, secret, option);
      DecodeInvertsEncode(B64, secret, option);
    }
    if UpperAll(text) == EncodeText(B32, secret, option) {
      Decode32AnyCase(secret, option, text);
      if "hex:" <= text || "b64:" <= text {
        PrefixIsNotBase32(text);
      }
    }
  }

  /** Whichever way a secret is written, the same bytes come out. */
  lemma AnyWritingDecodes(text: string, secret: seq<byte>)
    requires Writes(text, secret)
    ensures Named(text).1 == Some(secret)
  {
    hide EncodeText, HexText, HexDecode, Decode, Upper, Named;
    PrefixNames(text, secret, true);
    PrefixNames(text, secret, false);
  }

  // ---- an example ---------------------------------------------------------------------------

  const HELLO: seq<byte> := [0x48, 0x65, 0x6c, 0x6c, 0x6f]

  lemma ValueSnoc(base: nat, ds: seq<nat>, d: nat)
    ensures Value(base, ds + [d]) == base * Value(base, ds) + d
  {
    assert (ds + [d])[..|ds|] == ds;
  }

  lemma NumberSnoc(b: seq<byte>, last: byte)
    ensures Number(b + [last]) == 256 * Number(b) + last as nat
  {
    assert (b + [last])[..|b|] == b;
  }

  lemma HelloNumbers()
    ensures Number([0x48, 0x65, 0x6c]) == 0x48656c && Number([0x6c, 0x6f]) == 0x6c6f && Number(HELLO) == 0x48656c6c6f
  {
    hide Number;
    assert Number([]) == 0 by { NumberNone(); }
    NumberSnoc([], 0x48);
    NumberSnoc([0x48], 0x65);
    NumberSnoc([0x48, 0x65], 0x6c);
    NumberSnoc([0x48, 0x65, 0x6c], 0x6c);
    NumberSnoc([0x48, 0x65, 0x6c, 0x6c], 0x6f);
    NumberSnoc([], 0x6c);
    NumberSnoc([0x6c], 0x6f);
    HelloSeqs();
  }

  lemma NumberNone()
    ensures Number([]) == 0
  {
  }

  lemma HelloSeqs()
    ensures [] + [0x48 as byte] == [0x48] && [0x48 as byte] + [0x65] == [0x48, 0x65]
    ensures [0x48 as byte, 0x65] + [0x6c] == [0x48, 0x65, 0x6c]
    ensures [0x48 as byte, 0x65, 0x6c] + [0x6c] == [0x48, 0x65, 0x6c, 0x6c]
    ensures [0x48 as byte, 0x65, 0x6c, 0x6c] + [0x6f] == HELLO
    ensures [] + [0x6c as byte] == [0x6c] && [0x6c as byte] + [0x6f] == [0x6c, 0x6f]
  {
  }

  lemma HelloValues()
    ensures Value(64, [18, 6, 21, 44]) == 0x48656c && Value(64, [27, 6, 60]) == 4 * 0x6c6f
    ensures Value(32, [9, 1, 18, 22, 24, 27, 3, 15]) == 0x48656c6c6f
  {
    hide Value;
    assert Value(64, []) == 0 && Value(32, []) == 0 by { ValueNone(64); ValueNone(32); }
    ValueSnoc(64, [], 18);
    ValueSnoc(64, [18], 6);
    ValueSnoc(64, [18, 6], 21);
    ValueSnoc(64, [18, 6, 21], 44);
    ValueSnoc(64, [], 27);
    ValueSnoc(64, [27], 6);
    ValueSnoc(64, [27, 6], 60);
    assert [] + [18] == [18] && [18] + [6] == [18, 6] && [18, 6] + [21] == [18, 6, 21];
    assert [18, 6, 21] + [44] == [18, 6, 21, 44];
    assert [] + [27] == [27] && [27] + [6] == [27, 6] && [27, 6] + [60] == [27, 6, 60];
    HelloValue32();
  }

  lemma ValueNone(base: nat)
    ensures Value(base, []) == 0
  {
  }

  lemma HelloValue32()
    ensures Value(32, [9, 1, 18, 22, 24, 27, 3, 15]) == 0x48656c6c6f
  {
    hide Value;
    ValueNone(32);
    ValueSnoc(32, [], 9);
    ValueSnoc(32, [9], 1);
    ValueSnoc(32, [9, 1], 18);
    ValueSnoc(32, [9, 1, 18], 22);
    ValueSnoc(32, [9, 1, 18, 22], 24);
    ValueSnoc(32, [9, 1, 18, 22, 24], 27);
    ValueSnoc(32, [9, 1, 18, 22, 24, 27], 3);
    ValueSnoc(32, [9, 1, 18, 22, 24, 27, 3], 15);
    assert [] + [9] == [9] && [9] + [1] == [9, 1] && [9, 1] + [18] == [9, 1, 18];
    assert [9, 1, 18] + [22] == [9, 1, 18, 22] && [9, 1, 18, 22] + [24] == [9, 1, 18, 22, 24];
    assert [9, 1, 18, 22, 24] + [27] == [9, 1, 18, 22, 24, 27];
    assert [9, 1, 18, 22, 24, 27] + [3] == [9, 1, 18, 22, 24, 27, 3];
    assert [9, 1, 18, 22, 24, 27, 3] + [15] == [9, 1, 18, 22, 24, 27, 3, 15];
  }

  lemma HelloGroups()
    ensures EncodeGroup(B64, [0x48, 0x65, 0x6c]) == [18, 6, 21, 44] && EncodeGroup(B64, [0x6c, 0x6f]) == [27, 6, 60]
    ensures EncodeGroup(B32, HELLO) == [9, 1, 18, 22, 24, 27, 3, 15]
  {
    hide Number, Value, Digits;
    HelloNumbers();
    HelloValues();
    DigitsOfValue(64, [18, 6, 21, 44]);
    DigitsOfValue(64, [27, 6, 60]);
    DigitsOfValue(32, [9, 1, 18, 22, 24, 27, 3, 15]);
  }

  lemma HelloTexts()
    ensures EncodeText(B64, HELLO, true) == "SGVsbG8=" && EncodeText(B32, HELLO, true) == "JBSWY3DP"
  {
    hide EncodeGroup;
    HelloGroups();
    var head, tail: seq<byte> := [0x48, 0x65, 0x6c], [0x6c, 0x6f];
    assert HELLO[..3] == head && HELLO[3..] == tail && HELLO[..5] == HELLO && HELLO[5..] == [];
    assert Chars(B64, [18, 6, 21, 44]) == "SGVs" && Chars(B64, [27, 6, 60]) == "bG8" && Pads(1) == "=";
    assert EncodeText(B64, tail, true) == "bG8=";
    assert Chars(B32, [9, 1, 18, 22, 24, 27, 3, 15]) == "JBSWY3DP";
  }

  lemma HelloHex()
    ensures HexText(HELLO, false) == "48656c6c6f"
  {
    var t4, t3: seq<byte> := [0x65, 0x6c, 0x6c, 0x6f], [0x6c, 0x6c, 0x6f];
    var t2, t1: seq<byte> := [0x6c, 0x6f], [0x6f];
    assert HELLO[1..] == t4 && t4[1..] == t3 && t3[1..] == t2 && t2[1..] == t1 && t1[1..] == [];
    assert HexText(t1, false) == "6f";
    assert HexText(t2, false) == "6c6f";
    assert HexText(t3, false) == "6c6c6f";
    assert HexText(t4, false) == "656c6c6f";
  }

  /** One secret in the three encodings. */
  lemma HelloSecrets()
    ensures Named("hex:48656c6c6f") == (SecretHex, Some(HELLO)) && Named("b64:SGVsbG8=") == (SecretBase64, Some(HELLO))
    ensures Named("JBSWY3DP") == (SecretBase32, Some(HELLO))
  {
    hide EncodeText, HexText, Named;
    HelloTexts();
    HelloHex();
    PrefixNames("hex:48656c6c6f", HELLO, false);
    PrefixNames("b64:SGVsbG8=", HELLO, true);
    PrefixNames("JBSWY3DP", HELLO, true);
    assert "hex:" + "48656c6c6f" == "hex:48656c6c6f" && "b64:" + "SGVsbG8=" == "b64:SGVsbG8=";
    assert UpperAll("JBSWY3DP") == "JBSWY3DP";
  }
}
