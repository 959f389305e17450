/** Base32 and base64 (sections 6 and 4 of RFC 4648), the encoders as specification and the
    group-wise decoders of src/encode.c as a function on strings. */
module Encode {
  import opened Bytes
  import opened Radix

  datatype Scheme = B32 | B64

  function Base(e: Scheme): (b: nat)
    ensures b > 0
  {
    match e case B32 => 32 case B64 => 64
  }

  /** Characters and bytes of a full group. */
  function GroupChars(e: Scheme): nat { match e case B32 => 8 case B64 => 4 }
  function GroupBytes(e: Scheme): nat { match e case B32 => 5 case B64 => 3 }

  /** b32_tab and B64_GROUP: bytes in a group of m characters, 0 where no such group exists. */
  function BytesFor(e: Scheme, m: nat): nat
    requires m <= GroupChars(e)
  {
    match e
    case B32 => [0, 0, 1, 0, 2, 3, 0, 4, 5][m]
    case B64 => m * 3 / 4
  }

  /** Characters that carry n bytes. */
  function CharsFor(e: Scheme, n: nat): (m: nat)
    requires 1 <= n <= GroupBytes(e)
    ensures m <= GroupChars(e) && BytesFor(e, m) == n
  {
    match e
    case B32 => [2, 4, 5, 7, 8][n - 1]
    case B64 => n + 1
  }

  /** Two to the number of bits that m characters hold beyond their bytes. */
  function Spare(e: Scheme, m: nat): (q: nat)
    requires m <= GroupChars(e) && BytesFor(e, m) > 0
    ensures q > 0
  {
    match e
    case B32 => [1, 1, 4, 1, 16, 2, 1, 8, 1][m]
    case B64 => [1, 1, 16, 4, 1][m]
  }

  /** b32_val and b64_val: -2 for the padding character, -1 for anything foreign. */
  function Val(e: Scheme, c: char): (v: int)
    ensures v < Base(e)
  {
    match e
    case B32 =>
      var u := if 'a' <= c <= 'z' then c - 32 as char else c;
      if 'A' <= u <= 'Z' then u as int - 'A' as int
      else if '2' <= u <= '7' then u as int - '2' as int + 26
      else if u == '=' then -2 else -1
    case B64 =>
      if 'A' <= c <= 'Z' then c as int - 'A' as int
      else if 'a' <= c <= 'z' then c as int - 'a' as int + 26
      else if '0' <= c <= '9' then c as int - '0' as int + 52
      else if c == '+' then 62 else if c == '/' then 63
      else if c == '=' then -2 else -1
  }

  /** The alphabets of tables 3 and 1: A-Z then 2-7, and A-Z, a-z, 0-9, + and /. */
  function CharOf(e: Scheme, v: nat): char
    requires v < Base(e)
  {
    if v < 26 then ('A' as int + v) as char
    else
      match e
      case B32 => ('2' as int + (v - 26)) as char
      case B64 =>
        if v < 52 then ('a' as int + (v - 26)) as char
        else if v < 62 then ('0' as int + (v - 52)) as char
        else if v == 62 then '+' else '/'
  }

  const UPPER: string := "ABCDEFGHIJKLMNOPQRSTUVWXYZ"
  const LOWER: string := "abcdefghijklmnopqrstuvwxyz"

  /** Both alphabets, spelled out. */
  lemma AlphabetIs(e: Scheme, v: nat)
    requires v < Base(e)
    ensures var alphabet := match e case B32 => UPPER + "234567" case B64 => UPPER + LOWER + "0123456789+/";
            |alphabet| == Base(e) && CharOf(e, v) == alphabet[v]
  {
    if v < 26 {
      UpperIs(v);
    } else if e.B64? && v < 52 {
      LowerIs(v - 26);
    }
  }

  lemma UpperIs(i: nat)
    requires i < 26
    ensures |UPPER| == 26 && UPPER[i] as int == 'A' as int + i
  {
  }

  lemma LowerIs(i: nat)
    requires i < 26
    ensures |LOWER| == 26 && LOWER[i] as int == 'a' as int + i
  {
  }

  lemma CharVal(e: Scheme, v: nat)
    requires v < Base(e)
    ensures Val(e, CharOf(e, v)) == v
  {
  }

  function Upper(c: char): char { if 'a' <= c <= 'z' then c - 32 as char else c }

  lemma ValChar32(c: char)
    requires Val(B32, c) >= 0
    ensures CharOf(B32, Val(B32, c)) == Upper(c)
  {
  }

  // ---- groups -----------------------------------------------------------------------------

  /** The characters' values for 1 to GroupBytes bytes: their bits, zero bits appended on the right. */
  function EncodeGroup(e: Scheme, b: seq<byte>): (vals: seq<nat>)
    requires 1 <= |b| <= GroupBytes(e)
    ensures |vals| == CharsFor(e, |b|) && forall i :: 0 <= i < |vals| ==> vals[i] < Base(e)
  {
    var m := CharsFor(e, |b|);
    Digits(Base(e), Number(b) * Spare(e, m), m)
  }

  /** Base32 rejects a group whose spare bits are not zero; base64 drops them. */
  function DecodeGroup(e: Scheme, vals: seq<nat>): Option<seq<byte>>
    requires |vals| <= GroupChars(e) && BytesFor(e, |vals|) > 0
  {
    var x, q := Value(Base(e), vals), Spare(e, |vals|);
    if e.B32? && Rem(x, q) != 0 then None else Some(BigEndian(Quot(x, q), BytesFor(e, |vals|)))
  }

  lemma Capacity(e: Scheme, m: nat)
    requires m <= GroupChars(e) && BytesFor(e, m) > 0
    ensures Pow256(BytesFor(e, m)) * Spare(e, m) == Power(Base(e), m)
    ensures Pow256(GroupBytes(e) - BytesFor(e, m)) == Spare(e, m) * Power(Base(e), GroupChars(e) - m)
    ensures Base(e) % Spare(e, m) == 0
  {
    assert Power(32, 2) == 1024 && Power(64, 2) == 4096;
    assert Power(32, 4) == 1024 * 1024;
    assert Power(32, 5) == 32 * 1024 * 1024;
    assert Power(32, 7) == 1024 * 32 * 1024 * 1024;
    assert Pow256(2) == 65536 && Pow256(4) == 65536 * 65536;
  }

  lemma GroupRoundTrip(e: Scheme, b: seq<byte>)
    requires 1 <= |b| <= GroupBytes(e)
    ensures DecodeGroup(e, EncodeGroup(e, b)) == Some(b)
  {
    hide Digits, Value, BigEndian, Power, Pow256, Number, Spare, CharsFor;
    var m := CharsFor(e, |b|);
    var x, q := Number(b), Spare(e, m);
    Capacity(e, m);
    NumberBound(b);
    MulLess(x, Pow256(|b|), q);
    ValueOfDigits(Base(e), x * q, m);
    MulCancel(x, q);
    BytesOfNumber(b);
  }

  lemma MulLess(x: nat, p: nat, q: nat)
    requires x < p && q > 0
    ensures x * q < p * q
  {
  }

  lemma MulCancel(x: nat, q: nat)
    requires q > 0
    ensures Quot(x * q, q) == x && Rem(x * q, q) == 0
  {
    DivMod(q, x, 0);
  }

  /** A base32 group that decodes is the group its bytes encode to. */
  lemma GroupCanonical(vals: seq<nat>)
    requires |vals| <= 8 && BytesFor(B32, |vals|) > 0 && AreDigits(32, vals) && DecodeGroup(B32, vals).Some?
    ensures var b := DecodeGroup(B32, vals).value;
            1 <= |b| <= 5 && |b| == BytesFor(B32, |vals|) && EncodeGroup(B32, b) == vals
  {
    hide Digits, Value, BigEndian, Power, Pow256, Number;
    var m := |vals|;
    var n := BytesFor(B32, m);
    var x, q := Value(32, vals), Spare(B32, m);
    Capacity(B32, m);
    ValueBound(32, vals);
    QuotRem(x, q);
    DivLess(x, q, Pow256(n));
    NumberOfBytes(Quot(x, q), n);
    DigitsOfValue(32, vals);
  }

  // ---- strings ----------------------------------------------------------------------------

  function Chars(e: Scheme, vals: seq<nat>): (s: string)
    requires forall i :: 0 <= i < |vals| ==> vals[i] < Base(e)
    ensures |s| == |vals| && forall i :: 0 <= i < |s| ==> s[i] == CharOf(e, vals[i])
  {
    seq(|vals|, i requires 0 <= i < |vals| => CharOf(e, vals[i]))
  }

  function Pads(n: nat): (s: string)
    ensures |s| == n && forall i :: 0 <= i < n ==> s[i] == '='
  {
    seq(n, _ => '=')
  }

  /** The RFC 4648 encoding, with or without padding. */
  function EncodeText(e: Scheme, b: seq<byte>, padded: bool): string {
    if |b| == 0 then ""
    else if |b| >= GroupBytes(e) then
      Chars(e, EncodeGroup(e, b[..GroupBytes(e)])) + EncodeText(e, b[GroupBytes(e)..], padded)
    else
      var t := Chars(e, EncodeGroup(e, b));
      if padded then t + Pads(GroupChars(e) - |t|) else t
  }

  /** How many of the first k characters, from the left, are alphabet characters. */
  function RunLength(e: Scheme, s: string, k: nat): (j: nat)
    ensures j <= k && j <= |s|
    ensures forall i :: 0 <= i < j ==> Val(e, s[i]) >= 0
    ensures j < k && j < |s| ==> Val(e, s[j]) < 0
  {
    if k == 0 || |s| == 0 || Val(e, s[0]) < 0 then 0 else 1 + RunLength(e, s[1..], k - 1)
  }

  function Vals(e: Scheme, s: string): (vals: seq<nat>)
    requires forall i :: 0 <= i < |s| ==> Val(e, s[i]) >= 0
    ensures |vals| == |s| && forall i :: 0 <= i < |s| ==> vals[i] == Val(e, s[i])
  {
    seq(|s|, i requires 0 <= i < |s| => Val(e, s[i]))
  }

  /** Up to the end of the string, the first k characters are padding. */
  predicate PadsOnly(s: string, k: nat) {
    forall i :: 0 <= i < k && i < |s| ==> s[i] == '='
  }

  /** The values of the first group and the characters it takes. */
  function ReadGroup(e: Scheme, s: string): (r: Option<(seq<nat>, nat)>)
    ensures r.Some? ==> |r.value.0| <= GroupChars(e) && BytesFor(e, |r.value.0|) > 0 && 1 <= r.value.1 <= |s|
    ensures r.Some? ==> AreDigits(Base(e), r.value.0)
  {
    var g := GroupChars(e);
    var j := RunLength(e, s, g);
    if BytesFor(e, j) == 0 then None
    else if j == g || j == |s| then Some((Vals(e, s[..j]), j))
    else if Val(e, s[j]) == -2 && PadsOnly(s[j..], g - j) then Some((Vals(e, s[..j]), if g < |s| then g else |s|))
    else None
  }

  function Decode(e: Scheme, s: string): (r: Option<seq<byte>>) {
    if |s| == 0 then Some([])
    else
      match ReadGroup(e, s)
      case None => None
      case Some((vals, used)) =>
        match DecodeGroup(e, vals)
        case None => None
        case Some(b) =>
          match Decode(e, s[used..])
          case None => None
          case Some(rest) => Some(b + rest)
  }

  lemma {:induction false} RunOf(e: Scheme, s: string, k: nat, j: nat)
    requires j <= k && j <= |s| && (forall i :: 0 <= i < j ==> Val(e, s[i]) >= 0)
    requires j < k && j < |s| ==> Val(e, s[j]) < 0
    ensures RunLength(e, s, k) == j
  {
  }

  /** The text of a group, at the end of the string or followed by what may follow, reads back. */
  lemma ReadsGroup(e: Scheme, vals: seq<nat>, rest: string)
    requires |vals| <= GroupChars(e) && BytesFor(e, |vals|) > 0 && AreDigits(Base(e), vals)
    requires |vals| == GroupChars(e) || rest == "" || rest == Pads(GroupChars(e) - |vals|)
    ensures ReadGroup(e, Chars(e, vals) + rest)
         == Some((vals, if |vals| == GroupChars(e) then |vals| else |vals| + |rest|))
  {
    hide CharOf, Val, BytesFor;
    var s, j := Chars(e, vals) + rest, |vals|;
    forall i | 0 <= i < j
      ensures Val(e, s[i]) == vals[i]
    {
      CharVal(e, vals[i]);
    }
    PadVal(e);
    RunOf(e, s, GroupChars(e), j);
    assert Vals(e, s[..j]) == vals;
  }

  lemma PadVal(e: Scheme)
    ensures Val(e, '=') == -2
  {
  }

  /** Decoding inverts encoding, padded or not, on every byte string. */
  lemma {:induction false} DecodeInvertsEncode(e: Scheme, b: seq<byte>, padded: bool)
    ensures Decode(e, EncodeText(e, b, padded)) == Some(b)
    decreases |b|
  {
    hide EncodeGroup, DecodeGroup, ReadGroup, CharsFor, BytesFor;
    var n := GroupBytes(e);
    var s := EncodeText(e, b, padded);
    if |b| >= n {
      var vals, rest := EncodeGroup(e, b[..n]), EncodeText(e, b[n..], padded);
      FullGroup(e);
      GroupRoundTrip(e, b[..n]);
      ReadsGroup(e, vals, rest);
      assert s[|vals|..] == rest;
      DecodeInvertsEncode(e, b[n..], padded);
      assert b[..n] + b[n..] == b;
    } else if |b| > 0 {
      var vals := EncodeGroup(e, b);
      var pads := if padded then Pads(GroupChars(e) - |vals|) else "";
      FullGroup(e);
      GroupRoundTrip(e, b);
      assert s == Chars(e, vals) + pads;
      ReadsGroup(e, vals, pads);
      assert s[|s|..] == "";
      assert b + [] == b;
    }
  }
  /** Only alphabet and padding characters are ever accepted: embedded white space is not. */
  lemma {:induction false} AcceptedCharacters(e: Scheme, s: string, i: nat)
    requires Decode(e, s).Some? && i < |s|
    ensures Val(e, s[i]) >= 0 || s[i] == '='
    decreases |s|
  {
    hide DecodeGroup, BytesFor, Val;
    var used := ReadGroup(e, s).value.1;
    if i < used {
      var j := RunLength(e, s, GroupChars(e));
      assert i >= j ==> s[i] == s[j..][i - j];
    } else {
      AcceptedCharacters(e, s[used..], i - used);
    }
  }

  predicate IsSpace(c: char) { c == ' ' || c == '\t' || c == '\n' || c == '\r' }

  /** A text without its white space. */
  function Stripped(s: string): (t: string)
    ensures |t| <= |s| && (|t| == |s| ==> t == s)
    ensures |t| < |s| ==> exists i :: 0 <= i < |s| && IsSpace(s[i])
  {
    if |s| == 0 then ""
    else
      var rest := Stripped(s[1..]);
      assert forall i :: 0 <= i < |s[1..]| ==> s[1..][i] == s[i + 1];
      if IsSpace(s[0]) then rest else [s[0]] + rest
  }

  /** White space makes no difference, as documented for base64, if and only if there is none of it or the
      text without it does not decode either. */
  lemma WhiteSpaceIff(s: string)
    ensures Decode(B64, s) == Decode(B64, Stripped(s)) <==> Stripped(s) == s || Decode(B64, Stripped(s)).None?
  {
    hide Decode;
    if Stripped(s) != s && Decode(B64, s).Some? {
      var i :| 0 <= i < |s| && IsSpace(s[i]);
      AcceptedCharacters(B64, s, i);
    }
  }

  lemma FullGroup(e: Scheme)
    ensures CharsFor(e, GroupBytes(e)) == GroupChars(e)
    ensures forall n :: 1 <= n < GroupBytes(e) ==> CharsFor(e, n) < GroupChars(e)
  {
  }

  // ---- base32 only --------------------------------------------------------------------------

  function UpperAll(s: string): (u: string)
    ensures |u| == |s| && forall i :: 0 <= i < |s| ==> u[i] == Upper(s[i])
  {
    seq(|s|, i requires 0 <= i < |s| => Upper(s[i]))
  }

  lemma UpperVal(c: char)
    ensures Val(B32, Upper(c)) == Val(B32, c) && (Upper(c) == '=' <==> c == '=')
  {
  }

  lemma SamePads(s: string, t: string, k: nat)
    requires |s| == |t| && forall i :: 0 <= i < |s| ==> (s[i] == '=' <==> t[i] == '=')
    ensures PadsOnly(s, k) <==> PadsOnly(t, k)
  {
  }

  lemma ReadGroupCaseBlind(s: string)
    ensures ReadGroup(B32, UpperAll(s)) == ReadGroup(B32, s)
  {
    hide Val, Upper, BytesFor, RunLength, PadsOnly;
    var u, g := UpperAll(s), 8;
    var j := RunLength(B32, s, g);
    forall i | 0 <= i < |s|
      ensures Val(B32, u[i]) == Val(B32, s[i]) && (u[i] == '=' <==> s[i] == '=')
    {
      UpperVal(s[i]);
    }
    RunOf(B32, u, g, j);
    assert Vals(B32, u[..j]) == Vals(B32, s[..j]);
    SamePads(u[j..], s[j..], g - j);
  }

  /** Letter case does not matter to the base32 decoder. */
  lemma {:induction false} DecodeCaseBlind(s: string)
    ensures Decode(B32, UpperAll(s)) == Decode(B32, s)
    decreases |s|
  {
    hide ReadGroup, DecodeGroup, Upper;
    ReadGroupCaseBlind(s);
    match ReadGroup(B32, s)
    case None =>
    case Some((_, used)) =>
      if |s| > 0 {
        DecodeCaseBlind(s[used..]);
        assert UpperAll(s)[used..] == UpperAll(s[used..]);
      }
  }

  /** Decoding inverts encoding for every mix of letter case. */
  lemma Decode32AnyCase(b: seq<byte>, padded: bool, s: string)
    requires UpperAll(s) == EncodeText(B32, b, padded)
    ensures Decode(B32, s) == Some(b)
  {
    DecodeCaseBlind(s);
    DecodeInvertsEncode(B32, b, padded);
  }

  /** Every accepted string without padding is, up to case, the encoding of what it decodes to. */
  lemma {:induction false} Decode32Canonical(s: string)
    requires '=' !in s && Decode(B32, s).Some?
    ensures EncodeText(B32, Decode(B32, s).value, false) == UpperAll(s)
    decreases |s|
  {
    hide EncodeGroup, DecodeGroup, ReadGroup, Val, Upper, CharOf, EncodeText;
    if |s| > 0 {
      var (vals, used) := ReadGroup(B32, s).value;
      NoPadGroup(s);
      GroupText(s[..used], vals);
      GroupCanonical(vals);
      Decode32Canonical(s[used..]);
      EncodeSplit(DecodeGroup(B32, vals).value, Decode(B32, s[used..]).value);
      assert UpperAll(s) == UpperAll(s[..used]) + UpperAll(s[used..]);
    } else {
      EncodeNothing();
    }
  }

  lemma EncodeNothing()
    ensures EncodeText(B32, [], false) == ""
  {
  }

  lemma EncodeSplit(b: seq<byte>, rest: seq<byte>)
    requires |b| == 5 || (1 <= |b| < 5 && rest == [])
    ensures EncodeText(B32, b + rest, false) == Chars(B32, EncodeGroup(B32, b)) + EncodeText(B32, rest, false)
  {
    hide EncodeGroup, Chars;
    assert (b + rest)[..|b|] == b && (b + rest)[|b|..] == rest;
    assert b + [] == b;
  }

  lemma NoPadGroup(s: string)
    requires '=' !in s && ReadGroup(B32, s).Some?
    ensures var (vals, used) := ReadGroup(B32, s).value;
            && used <= |s| && (forall i :: 0 <= i < used ==> Val(B32, s[i]) >= 0) && vals == Vals(B32, s[..used])
            && (used == 8 || Decode(B32, s[used..]) == Some([]))
  {
    hide BytesFor, Val, DecodeGroup;
    assert s[|s|..] == "";
  }

  lemma GroupText(s: string, vals: seq<nat>)
    requires (forall i :: 0 <= i < |s| ==> Val(B32, s[i]) >= 0) && vals == Vals(B32, s)
    ensures Chars(B32, vals) == UpperAll(s)
  {
    hide Val, Upper, CharOf;
    forall i | 0 <= i < |s|
      ensures Chars(B32, vals)[i] == UpperAll(s)[i]
    {
      ValChar32(s[i]);
    }
  }
}
