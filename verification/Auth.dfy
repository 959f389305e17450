/** src/auth.c: the replay table in place, the packet parser and token validation. */
module Auth {
  import opened Bytes
  import opened Addr
  import opened ProbeTable
  import opened Replay
  import Totp

  // ---- packets ----------------------------------------------------------------------------

  const MAX_PACKET_LEN: nat := 256
  const MIN_TOKEN_DIGITS: nat := 6
  const MAX_TOKEN_DIGITS: nat := 8

  predicate IsDigit(b: byte) { 0x30 <= b <= 0x39 }

  function DigitValue(b: byte): (v: nat)
    requires IsDigit(b)
    ensures v < 10
  {
    (b - 0x30) as nat
  }

  predicate AllDigits(s: seq<byte>) {
    forall i :: 0 <= i < |s| ==> IsDigit(s[i])
  }

  /** The number a string of decimal digits denotes. */
  function Decimal(s: seq<byte>): nat
    requires AllDigits(s)
  {
    if |s| == 0 then 0 else 10 * Decimal(s[..|s| - 1]) + DigitValue(s[|s| - 1])
  }

  /** A packet is a token of six to eight digits and nothing else. */
  function Parse(data: seq<byte>): Option<nat> {
    if MIN_TOKEN_DIGITS <= |data| <= MAX_TOKEN_DIGITS && AllDigits(data) then Some(Decimal(data)) else None
  }

  function Pow10(k: nat): nat {
    if k == 0 then 1 else 10 * Pow10(k - 1)
  }

  lemma {:induction false} DecimalBound(s: seq<byte>)
    requires AllDigits(s)
    ensures Decimal(s) < Pow10(|s|)
  {
    if |s| > 0 {
      DecimalBound(s[..|s| - 1]);
    }
  }

  lemma {:induction false} Pow10Grows(j: nat, k: nat)
    requires j <= k
    ensures 1 <= Pow10(j) <= Pow10(k)
  {
    if j < k {
      Pow10Grows(j, k - 1);
    } else if j > 0 {
      Pow10Grows(j - 1, k - 1);
    }
  }

  lemma EightDigits(s: seq<byte>)
    requires AllDigits(s) && |s| <= 8
    ensures Decimal(s) < TWO32
  {
    DecimalBound(s);
    Pow10Grows(|s|, 8);
    assert Pow10(8) == 100_000_000;
  }

  lemma ParseShape(data: seq<byte>)
    ensures Parse(data).Some? <==> 6 <= |data| <= 8 && forall i :: 0 <= i < |data| ==> 0x30 <= data[i] <= 0x39
  {
  }

  /** auth_parse, with its 32-bit accumulator. */
  method ParseToken(data: seq<byte>) returns (token: Option<nat>)
    ensures token == Parse(data)
    ensures token.Some? <==> 6 <= |data| <= 8 && forall i :: 0 <= i < |data| ==> 0x30 <= data[i] <= 0x39
  {
    hide IsDigit;
    ParseShape(data);
    if |data| == 0 || |data| > MAX_PACKET_LEN {
      return None;
    }
    var i, t, tokenLen := 0, 0, 0;
    while i < |data| && IsDigit(data[i])
      invariant 0 <= i <= |data| && tokenLen == i <= MAX_TOKEN_DIGITS
      invariant AllDigits(data[..i]) && t == Decimal(data[..i])
    {
      if tokenLen >= MAX_TOKEN_DIGITS {
        return None;
      }
      assert data[..i + 1][..i] == data[..i];
      EightDigits(data[..i + 1]);
      t := (t * 10 + DigitValue(data[i])) % TWO32;
      tokenLen := tokenLen + 1;
      i := i + 1;
    }
    if tokenLen < MIN_TOKEN_DIGITS || tokenLen > MAX_TOKEN_DIGITS || i != |data| {
      return None;
    }
    assert data[..i] == data;
    return Some(t);
  }

  lemma DecimalSnoc(s: seq<byte>, b: byte)
    requires AllDigits(s) && IsDigit(b)
    ensures AllDigits(s + [b]) && Decimal(s + [b]) == 10 * Decimal(s) + DigitValue(b)
  {
    hide IsDigit, DigitValue;
    assert (s + [b])[..|s|] == s;
  }

  lemma ExampleDigits()
    ensures IsDigit(0x32) && IsDigit(0x33) && IsDigit(0x34) && IsDigit(0x36) && IsDigit(0x38) && IsDigit(0x39)
    ensures DigitValue(0x32) == 2 && DigitValue(0x33) == 3 && DigitValue(0x34) == 4
    ensures DigitValue(0x36) == 6 && DigitValue(0x38) == 8 && DigitValue(0x39) == 9
  {
  }

  /** The packet "482639" carries that token. */
  lemma ParseExample()
    ensures Parse([0x34, 0x38, 0x32, 0x36, 0x33, 0x39]) == Some(482639)
  {
    hide IsDigit, DigitValue, AllDigits, Decimal;
    ExampleDigits();
    NoDigits();
    var s0: seq<byte> := [];
    var s1, s2, s3: seq<byte> := s0 + [0x34], s0 + [0x34] + [0x38], s0 + [0x34] + [0x38] + [0x32];
    var s4, s5 := s3 + [0x36], s3 + [0x36] + [0x33];
    DecimalSnoc(s0, 0x34);
    DecimalSnoc(s1, 0x38);
    DecimalSnoc(s2, 0x32);
    DecimalSnoc(s3, 0x36);
    DecimalSnoc(s4, 0x33);
    DecimalSnoc(s5, 0x39);
    assert s5 + [0x39] == [0x34, 0x38, 0x32, 0x36, 0x33, 0x39];
  }

  lemma NoDigits()
    ensures AllDigits([]) && Decimal([]) == 0
  {
  }

  /** pow10 is 10^digits for six to eight digits, and 10^6 for any other number. */
  lemma ModulusIs(digits: int)
    ensures Totp.Modulus(digits) == Pow10(if 6 <= digits <= 8 then digits else 6)
  {
    assert Pow10(6) == 1_000_000 && Pow10(7) == 10_000_000 && Pow10(8) == 100_000_000;
  }

  // ---- validation -------------------------------------------------------------------------

  /** auth_validate: the counter accepted, if any, and the table afterwards. The smallest counter
      of the window that generates the token must be fresh and must find room in the table. */
  function Validate(t: Slots, secret: seq<byte>, token: nat, p: Totp.Params, ip: Ip,
                    seenAt: nat): (r: (Option<nat>, Slots))
    requires |t| == 64 && p.step > 0
    ensures |r.1| == 64
  {
    match Totp.WindowMatch(secret, token, p)
    case None => (None, t)
    case Some(c) =>
      if SeenBefore(t, c, ip) || Target(t, ip).None? then (None, t)
      else (Some(c), Put(t, ip, Record(c, seenAt)))
  }

  /** c is the smallest counter of the window whose code is the token. */
  ghost predicate LeastMatch(secret: seq<byte>, token: nat, p: Totp.Params, c: nat)
    requires p.step > 0
  {
    && p.now / p.step - p.behind <= c <= p.now / p.step + p.ahead
    && Totp.Hotp(secret, c, p.digits) == token
    && forall b: nat :: p.now / p.step - p.behind <= b < c ==> Totp.Hotp(secret, b, p.digits) != token
  }

  /** A token is accepted for c exactly when c is its smallest match, is above the counter recorded
      for the address, and can be recorded; then it is what the table knows of that address. A later
      match in the window is never tried. */
  lemma AcceptsIff(t: Slots, secret: seq<byte>, token: nat, p: Totp.Params, ip: Ip, seenAt: nat, c: nat)
    requires |t| == 64 && p.step > 0
    ensures var (r, t') := Validate(t, secret, token, p, ip, seenAt);
            && (r == Some(c) <==> LeastMatch(secret, token, p, c) && !SeenBefore(t, c, ip) && Target(t, ip).Some?)
            && (r == Some(c) ==> Lookup(t', ip) == Some(Record(c, seenAt)))
            && (r == None ==> t' == t)
  {
    hide Totp.Hotp, Lookup, Target;
    var lo, hi := Totp.Oldest(p), Totp.Current(p) + p.ahead;
    Totp.FirstMatchIsLeast(secret, p.digits, token, lo, hi, c);
    var m := Totp.WindowMatch(secret, token, p);
    if m.Some? {
      forall b: nat | p.now / p.step - p.behind <= b < m.value
        ensures Totp.Hotp(secret, b, p.digits) != token
      {
        Totp.FirstMatchIsLeast(secret, p.digits, token, lo, hi, b);
      }
    }
    if Target(t, ip).Some? {
      PutLookup(t, ip, Record(c, seenAt), ip);
    }
  }

  /** g_replay and the functions that work on it. */
  class ReplayTable {
    const slots: array<Slot<Record>>

    ghost predicate Valid() {
      slots.Length == 64
    }

    constructor ()
      ensures Valid() && fresh(slots) && slots[..] == Empty()
    {
      slots := new Slot<Record>[64](_ => Slot(false, Ip(0, Zeros(16)), Record(0, 0)));
    }

    method Reset()
      requires Valid()
      modifies slots
      ensures slots[..] == Empty()
    {
      for i := 0 to 64
        invariant forall p :: 0 <= p < i ==> slots[p] == Empty()[p]
      {
        slots[i] := Slot(false, Ip(0, Zeros(16)), Record(0, 0));
      }
    }

    method Seen(counter: nat, ip: Ip) returns (seen: bool)
      requires Valid()
      ensures seen == SeenBefore(slots[..], counter, ip)
    {
      hide Home;
      var idx := Home(ip);
      for i := 0 to 64
        invariant Probe(slots[..], ip, 0) == Probe(slots[..], ip, i)
      {
        var pos := (idx + i) % 64;
        assert pos == Pos(ip, i);
        if !slots[pos].used {
          return false;
        }
        if slots[pos].ip == ip {
          return counter <= slots[pos].rec.lastSeq;
        }
      }
      return false;
    }

    /** auth_record_seq; `time` is its own reading of the clock. */
    method RecordSeq(counter: nat, ip: Ip, time: nat) returns (ok: bool)
      requires Valid()
      modifies slots
      ensures ok == Target(old(slots[..]), ip).Some?
      ensures slots[..] == Put(old(slots[..]), ip, Record(counter, time))
    {
      hide Home, Probe;
      var idx := Home(ip);
      var firstEmpty := 64;
      var i := 0;
      while i < 64
        invariant 0 <= i <= 64 && firstEmpty == 64 && slots[..] == old(slots[..])
        invariant Probe(slots[..], ip, 0) == Probe(slots[..], ip, i)
      {
        var pos := (idx + i) % 64;
        assert pos == Pos(ip, i);
        ProbeStep(slots[..], ip, i);
        if !slots[pos].used {
          if firstEmpty >= 64 {
            firstEmpty := pos;
          }
          break;
        }
        if slots[pos].ip == ip {
          slots[pos] := slots[pos].(rec := Record(counter, time));
          return true;
        }
        i := i + 1;
      }
      ProbeEnd(slots[..], ip);
      if firstEmpty < 64 {
        slots[firstEmpty] := Slot(true, ip, Record(counter, time));
        return true;
      }
      return false;
    }

    method Sweep(now: nat, maxAge: nat)
      requires Valid()
      modifies slots
      ensures slots[..] == Prune(old(slots[..]), now, maxAge)
    {
      for i := 0 to 64
        invariant forall p :: 0 <= p < i ==> slots[p] == Prune(old(slots[..]), now, maxAge)[p]
        invariant forall p :: i <= p < 64 ==> slots[p] == old(slots[..])[p]
      {
        if slots[i].used && now - slots[i].rec.lastSeen > maxAge {
          slots[i] := slots[i].(used := false);
        }
      }
    }

    method ValidateToken(secret: seq<byte>, token: nat, p: Totp.Params, ip: Ip,
                         seenAt: nat) returns (accepted: Option<nat>)
      requires Valid() && p.step > 0
      modifies slots
      ensures (accepted, slots[..]) == Validate(old(slots[..]), secret, token, p, ip, seenAt)
    {
      hide Totp.Hotp, Target, Lookup;
      var current := p.now / p.step;
      var d := 0 - p.behind as int;
      while d <= p.ahead
        invariant 0 - p.behind as int <= d <= p.ahead + 1
        invariant slots[..] == old(slots[..])
        invariant current + d >= 0 ==>
          Totp.WindowMatch(secret, token, p) == Totp.FirstMatch(secret, p.digits, token, current + d, current + p.ahead)
      {
        if d < 0 && current < -d {
          d := d + 1;
          continue;
        }
        var counter := current + d;
        var code := Totp.Generate(secret, counter, p.digits);
        if code == token {
          var seen := Seen(counter, ip);
          if seen {
            return None;
          }
          var ok := RecordSeq(counter, ip, seenAt);
          return if ok then Some(counter) else None;
        }
        d := d + 1;
      }
      return None;
    }
  }
}
