/** Padding in base32 and base64 texts: what the decoders of src/encode.c accept, and exactly when an
    accepted text is padded as section 3.2 of RFC 4648 has it. */
module Padding {
  import opened Bytes
  import opened Radix
  import opened Encode

  /** A text up to letter case, where the scheme ignores it. */
  function Plain(e: Scheme, s: string): (u: string)
    ensures |u| == |s|
  {
    match e case B32 => UpperAll(s) case B64 => s
  }

  lemma PlainAt(e: Scheme, s: string, i: nat)
    requires i < |s|
    ensures Plain(e, s)[i] == '=' <==> s[i] == '='
    ensures Val(e, s[i]) >= 0 ==> Plain(e, s)[i] == CharOf(e, Val(e, s[i])) && s[i] != '='
  {
    hide RunLength;
    if e.B32? {
      UpperVal(s[i]);
      if Val(e, s[i]) >= 0 {
        ValChar32(s[i]);
      }
    }
  }

  lemma PlainConcat(e: Scheme, s: string, n: nat)
    requires n <= |s|
    ensures Plain(e, s) == Plain(e, s[..n]) + Plain(e, s[n..])
  {
    hide Upper;
  }

  /** A run of alphabet characters is the text of its values. */
  lemma RunText(e: Scheme, s: string)
    requires forall i :: 0 <= i < |s| ==> Val(e, s[i]) >= 0
    ensures Chars(e, Vals(e, s)) == Plain(e, s)
  {
    hide Val, CharOf, Plain;
    forall i | 0 <= i < |s|
      ensures Chars(e, Vals(e, s))[i] == Plain(e, s)[i]
    {
      PlainAt(e, s, i);
    }
  }

  lemma CharsNoPad(e: Scheme, vals: seq<nat>, i: nat)
    requires AreDigits(Base(e), vals) && i < |vals|
    ensures Chars(e, vals)[i] != '='
  {
    hide CharOf, Val;
    CharVal(e, vals[i]);
    PadVal(e);
  }

  lemma CharsSame(e: Scheme, vals: seq<nat>, other: seq<nat>)
    requires AreDigits(Base(e), vals) && AreDigits(Base(e), other) && |vals| == |other|
    ensures Chars(e, vals) == Chars(e, other) <==> vals == other
  {
    hide CharOf, Val;
    if Chars(e, vals) == Chars(e, other) {
      forall i | 0 <= i < |vals|
        ensures vals[i] == other[i]
      {
        CharVal(e, vals[i]);
        CharVal(e, other[i]);
        assert Chars(e, vals)[i] == Chars(e, other)[i];
      }
    }
  }

  lemma TablesInvert(e: Scheme, m: nat)
    requires m <= GroupChars(e) && BytesFor(e, m) > 0
    ensures BytesFor(e, m) <= GroupBytes(e) && CharsFor(e, BytesFor(e, m)) == m
    ensures BytesFor(e, m) == GroupBytes(e) <==> m == GroupChars(e)
  {
  }

  /** The bits a group has to spare are zero. */
  predicate Clean(e: Scheme, vals: seq<nat>)
    requires |vals| <= GroupChars(e) && BytesFor(e, |vals|) > 0
  {
    Rem(Value(Base(e), vals), Spare(e, |vals|)) == 0
  }

  lemma FullIsClean(e: Scheme, vals: seq<nat>)
    requires |vals| == GroupChars(e) && BytesFor(e, |vals|) > 0
    ensures Clean(e, vals)
  {
    hide Value;
  }

  /** A group that decodes is the group its bytes encode to if and only if its spare bits are zero. */
  lemma GroupCanonicalIff(e: Scheme, vals: seq<nat>)
    requires |vals| <= GroupChars(e) && BytesFor(e, |vals|) > 0 && AreDigits(Base(e), vals)
    requires DecodeGroup(e, vals).Some?
    ensures var b := DecodeGroup(e, vals).value;
            && 1 <= |b| <= GroupBytes(e) && |b| == BytesFor(e, |vals|) && |EncodeGroup(e, b)| == |vals|
            && (EncodeGroup(e, b) == vals <==> Clean(e, vals))
  {
    hide Digits, Value, BigEndian, Power, Pow256, Number, Base, Spare, BytesFor, CharsFor, Quot, Rem;
    var m := |vals|;
    var n, x, q := BytesFor(e, m), Value(Base(e), vals), Spare(e, m);
    TablesInvert(e, m);
    Capacity(e, m);
    ValueBound(Base(e), vals);
    QuotRem(x, q);
    DivLess(x, q, Pow256(n));
    NumberOfBytes(Quot(x, q), n);
    DigitsOfValue(Base(e), vals);
    MulLess(Quot(x, q), Pow256(n), q);
    ValueOfDigits(Base(e), Quot(x, q) * q, m);
  }

  /** Padding up to a whole number of groups, and none before the last group. */
  ghost predicate WellPadded(e: Scheme, s: string) {
    |s| % GroupChars(e) == 0 && forall i :: 0 <= i < |s| - GroupChars(e) ==> s[i] != '='
  }

  /** The values in front of the padding. */
  function Run(e: Scheme, s: string): (vals: seq<nat>)
    ensures |vals| <= GroupChars(e)
  {
    Vals(e, s[..RunLength(e, s, GroupChars(e))])
  }

  /** The last group of a text leaves no stray bits behind. */
  ghost predicate CleanEnd(e: Scheme, s: string) {
    |s| < GroupChars(e)
    || (var vals := Run(e, s[|s| - GroupChars(e)..]); BytesFor(e, |vals|) > 0 && Clean(e, vals))
  }

  /** What an accepted text starts with. */
  lemma FirstGroup(e: Scheme, s: string)
    requires Decode(e, s).Some? && |s| > 0
    ensures ReadGroup(e, s).Some? && ReadGroup(e, s).value.0 == Run(e, s) && BytesFor(e, |Run(e, s)|) > 0
    ensures AreDigits(Base(e), Run(e, s)) && DecodeGroup(e, Run(e, s)).Some? && |Run(e, s)| <= |s|
    ensures forall i :: 0 <= i < |Run(e, s)| ==> Val(e, s[i]) >= 0
    ensures |Run(e, s)| < GroupChars(e) ==>
              forall i :: |Run(e, s)| <= i < GroupChars(e) && i < |s| ==> s[i] == '='
    ensures var used := ReadGroup(e, s).value.1;
            && used <= |s| && used == (if |s| < GroupChars(e) then |s| else GroupChars(e))
            && Decode(e, s[used..]).Some?
            && Decode(e, s).value == DecodeGroup(e, Run(e, s)).value + Decode(e, s[used..]).value
  {
    hide BytesFor, Val, DecodeGroup, Base, ReadGroup, Run;
    var (vals, used) := ReadGroup(e, s).value;
    FirstRead(e, s);
    assert Decode(e, s).value == DecodeGroup(e, vals).value + Decode(e, s[used..]).value;
  }

  lemma FirstRead(e: Scheme, s: string)
    requires ReadGroup(e, s).Some?
    ensures var (vals, used) := ReadGroup(e, s).value;
            && vals == Run(e, s) && |vals| <= |s|
            && (forall i :: 0 <= i < |vals| ==> Val(e, s[i]) >= 0)
            && used == (if |s| < GroupChars(e) then |s| else GroupChars(e))
            && forall i :: |vals| <= i < GroupChars(e) && i < |s| ==> s[i] == '='
  {
    hide BytesFor, Val, Base;
    var j := RunLength(e, s, GroupChars(e));
    assert forall i :: j <= i < |s| ==> s[i] == s[j..][i - j];
  }

  /** The text of a short group: its characters and what padding there is. */
  lemma ShortText(e: Scheme, s: string)
    requires Decode(e, s).Some? && 0 < |s| <= GroupChars(e) && |Run(e, s)| < GroupChars(e)
    ensures AreDigits(Base(e), Run(e, s)) && |Run(e, s)| <= |s|
    ensures Plain(e, s) == Chars(e, Run(e, s)) + Pads(|s| - |Run(e, s)|)
  {
    hide BytesFor, Val, Plain, DecodeGroup, Chars, ReadGroup, Decode, Base, RunLength;
    FirstGroup(e, s);
    var j := |Run(e, s)|;
    RunText(e, s[..j]);
    PlainConcat(e, s, j);
    forall i | 0 <= i < |s| - j
      ensures Plain(e, s[j..])[i] == '='
    {
      OnlyPad(e, s[j..], i);
    }
    assert Plain(e, s[j..]) == Pads(|s| - j);
  }

  lemma ShortEncoded(e: Scheme, b: seq<byte>)
    requires 1 <= |b| < GroupBytes(e)
    ensures var t := Chars(e, EncodeGroup(e, b));
            |t| <= GroupChars(e) && EncodeText(e, b, true) == t + Pads(GroupChars(e) - |t|)
  {
    hide EncodeGroup, Chars;
  }

  /** A short last group, alone. */
  lemma ShortGroupIff(e: Scheme, s: string)
    requires Decode(e, s).Some? && 0 < |s| <= GroupChars(e) && |Run(e, s)| < GroupChars(e)
    ensures Plain(e, s) == EncodeText(e, Decode(e, s).value, true) <==> WellPadded(e, s) && CleanEnd(e, s)
  {
    hide BytesFor, Val, Plain, Clean, EncodeGroup, DecodeGroup, ReadGroup, Decode, EncodeText, CharsFor, Base, Run;
    var vals := Run(e, s);
    FirstGroup(e, s);
    TablesInvert(e, |vals|);
    GroupCanonicalIff(e, vals);
    var b := DecodeGroup(e, vals).value;
    OneGroup(e, s, b);
    ShortText(e, s);
    ShortEncoded(e, b);
    CharsSame(e, EncodeGroup(e, b), vals);
    SameParts(Chars(e, vals), Pads(|s| - |vals|), Chars(e, EncodeGroup(e, b)), Pads(GroupChars(e) - |vals|));
    if |s| == GroupChars(e) {
      assert s[|s| - GroupChars(e)..] == s;
    } else {
      assert |Pads(|s| - |vals|)| != |Pads(GroupChars(e) - |vals|)|;
    }
  }

  lemma OneGroup(e: Scheme, s: string, b: seq<byte>)
    requires Decode(e, s).Some? && 0 < |s| <= GroupChars(e) && DecodeGroup(e, Run(e, s)) == Some(b)
    ensures Decode(e, s).value == b
  {
    hide BytesFor, DecodeGroup, ReadGroup, Run, Base, Val;
    FirstGroup(e, s);
    assert s[|s|..] == "" && b + [] == b;
  }

  lemma OnlyPad(e: Scheme, s: string, i: nat)
    requires i < |s| && s[i] == '='
    ensures Plain(e, s)[i] == '='
  {
    PlainAt(e, s, i);
  }

  lemma SameParts(a: string, p: string, b: string, q: string)
    requires |a| == |b|
    ensures a + p == b + q <==> a == b && p == q
  {
    if a + p == b + q {
      assert (a + p)[..|a|] == a && (b + q)[..|b|] == b && (a + p)[|a|..] == p && (b + q)[|b|..] == q;
    }
  }

  lemma FullEncoded(e: Scheme, b: seq<byte>, rest: seq<byte>)
    requires |b| == GroupBytes(e)
    ensures EncodeText(e, b + rest, true) == Chars(e, EncodeGroup(e, b)) + EncodeText(e, rest, true)
  {
    hide EncodeGroup, Chars;
    assert (b + rest)[..|b|] == b && (b + rest)[|b|..] == rest;
  }

  /** A full group in front carries the question on to the rest. */
  lemma FullGroupIff(e: Scheme, s: string)
    requires Decode(e, s).Some? && |Run(e, s)| == GroupChars(e)
    ensures GroupChars(e) <= |s| && Decode(e, s[GroupChars(e)..]).Some?
    ensures var rest := s[GroupChars(e)..];
            Plain(e, s) == EncodeText(e, Decode(e, s).value, true)
            <==> Plain(e, rest) == EncodeText(e, Decode(e, rest).value, true)
  {
    hide BytesFor, Val, Plain, Clean, EncodeGroup, DecodeGroup, ReadGroup;
    hide Decode, EncodeText, CharsFor, Base, RunLength;
    var g, vals := GroupChars(e), Run(e, s);
    FirstGroup(e, s);
    TablesInvert(e, g);
    FullIsClean(e, vals);
    GroupCanonicalIff(e, vals);
    var b, rest := DecodeGroup(e, vals).value, s[g..];
    FullEncoded(e, b, Decode(e, rest).value);
    RunText(e, s[..g]);
    PlainConcat(e, s, g);
    SameParts(Chars(e, vals), Plain(e, rest), Chars(e, vals), EncodeText(e, Decode(e, rest).value, true));
  }

  /** The condition goes on to the rest as well, unless that is empty. */
  lemma ConditionGoesOn(e: Scheme, s: string)
    requires |s| > GroupChars(e) && forall i :: 0 <= i < GroupChars(e) ==> s[i] != '='
    ensures var rest := s[GroupChars(e)..];
            && (WellPadded(e, s) && CleanEnd(e, s) <==> WellPadded(e, rest) && CleanEnd(e, rest))
            && (WellPadded(e, s) ==> WellPadded(e, rest))
  {
    hide Clean, Run, BytesFor;
    var g := GroupChars(e);
    var rest := s[g..];
    assert |rest| % g == |s| % g;
    assert forall i :: g <= i < |s| ==> s[i] == rest[i - g];
    if |rest| >= g {
      assert s[|s| - g..] == rest[|rest| - g..];
      if WellPadded(e, rest) {
        assert WellPadded(e, s);
      }
    }
  }

  /** The text of a full group that is all there is. */
  lemma LastFullGroup(e: Scheme, s: string)
    requires Decode(e, s).Some? && |Run(e, s)| == GroupChars(e) == |s|
    ensures Plain(e, s) == EncodeText(e, Decode(e, s).value, true) && WellPadded(e, s) && CleanEnd(e, s)
  {
    hide BytesFor, Val, Clean, EncodeGroup, DecodeGroup, ReadGroup, Run;
    FullGroupIff(e, s);
    FirstGroup(e, s);
    assert s[|s|..] == "" && s[|s| - GroupChars(e)..] == s;
    FullIsClean(e, Run(e, s));
  }

  /** Padding inside a text is never what the encoder writes. */
  lemma InnerPadding(e: Scheme, s: string)
    requires Decode(e, s).Some? && |Run(e, s)| < GroupChars(e) < |s|
    ensures Plain(e, s) != EncodeText(e, Decode(e, s).value, true) && !WellPadded(e, s)
  {
    hide BytesFor, Val, Plain, Clean, EncodeGroup, DecodeGroup, ReadGroup, Decode, EncodeText, CharsFor, Base, Run;
    var j := |Run(e, s)|;
    FirstGroup(e, s);
    PlainAt(e, s, j);
    var b := Decode(e, s).value;
    if |b| >= GroupBytes(e) {
      var head := b[..GroupBytes(e)];
      assert b == head + b[GroupBytes(e)..];
      FullEncoded(e, head, b[GroupBytes(e)..]);
      FullGroup(e);
      CharsNoPad(e, EncodeGroup(e, head), j);
    } else if |b| > 0 {
      ShortEncoded(e, b);
    } else {
      EncodeEmpty(e);
    }
  }

  lemma EncodeEmpty(e: Scheme)
    ensures EncodeText(e, [], true) == "" && Decode(e, "") == Some([])
  {
  }

  /** An accepted text is, up to case, the padded encoding of what it decodes to if and only if its padding
      makes up whole groups, none of it comes before the last group, and no stray bits are left there. The
      code does not check the first two. */
  lemma {:induction false} PaddedIff(e: Scheme, s: string)
    requires Decode(e, s).Some?
    ensures Plain(e, s) == EncodeText(e, Decode(e, s).value, true) <==> WellPadded(e, s) && CleanEnd(e, s)
    decreases |s|
  {
    hide BytesFor, Val, Plain, Clean, Decode, EncodeText, Run;
    hide WellPadded, CleanEnd, EncodeGroup, DecodeGroup, ReadGroup;
    var g := GroupChars(e);
    if |s| == 0 {
      EmptyPadded(e);
    } else if |Run(e, s)| == g {
      FullGroupIff(e, s);
      if |s| == g {
        LastFullGroup(e, s);
      } else {
        FirstGroup(e, s);
        forall i | 0 <= i < g
          ensures s[i] != '='
        {
          PlainAt(e, s, i);
        }
        ConditionGoesOn(e, s);
        PaddedIff(e, s[g..]);
      }
    } else if |s| <= g {
      ShortGroupIff(e, s);
    } else {
      InnerPadding(e, s);
    }
  }

  lemma EmptyPadded(e: Scheme)
    ensures Plain(e, "") == "" && WellPadded(e, "") && CleanEnd(e, "")
    ensures EncodeText(e, [], true) == "" && Decode(e, "") == Some([])
  {
  }

  lemma DecodedClean(vals: seq<nat>)
    requires |vals| <= 8 && BytesFor(B32, |vals|) > 0 && DecodeGroup(B32, vals).Some?
    ensures Clean(B32, vals)
  {
    hide BytesFor, Value;
  }

  /** Base32 leaves no stray bits: the code itself refuses them. */
  lemma {:induction false} Base32Clean(s: string)
    requires Decode(B32, s).Some? && WellPadded(B32, s)
    ensures CleanEnd(B32, s)
    decreases |s|
  {
    hide BytesFor, Val, Decode, Run, EncodeGroup, DecodeGroup, ReadGroup, WellPadded, Clean, Plain, EncodeText;
    if |s| == 8 {
      FirstGroup(B32, s);
      DecodedClean(Run(B32, s));
      assert s[|s| - 8..] == s;
    } else if |s| > 8 {
      if |Run(B32, s)| < 8 {
        InnerPadding(B32, s);
      } else {
        FirstGroup(B32, s);
        forall i | 0 <= i < 8
          ensures s[i] != '='
        {
          PlainAt(B32, s, i);
        }
        ConditionGoesOn(B32, s);
        Base32Clean(s[8..]);
      }
    }
  }

  /** So an accepted base32 text is the padded encoding of its bytes exactly when it is padded as such. */
  lemma Padded32Iff(s: string)
    requires Decode(B32, s).Some?
    ensures UpperAll(s) == EncodeText(B32, Decode(B32, s).value, true) <==> WellPadded(B32, s)
  {
    hide Decode, EncodeText, WellPadded, CleanEnd, Upper;
    PaddedIff(B32, s);
    if WellPadded(B32, s) {
      Base32Clean(s);
    }
  }

  lemma ReadsShort(e: Scheme, vals: seq<nat>, p: nat, rest: string)
    requires |vals| < GroupChars(e) && BytesFor(e, |vals|) > 0 && AreDigits(Base(e), vals)
    requires 1 <= p <= GroupChars(e) - |vals| && (rest == "" || p == GroupChars(e) - |vals|)
    ensures ReadGroup(e, Chars(e, vals) + Pads(p) + rest) == Some((vals, |vals| + p))
  {
    hide CharOf, Val, BytesFor, RunLength;
    var s, j := Chars(e, vals) + Pads(p) + rest, |vals|;
    assert s[j..] == Pads(p) + rest;
    forall i | 0 <= i < j
      ensures Val(e, s[i]) == vals[i]
    {
      CharVal(e, vals[i]);
    }
    PadVal(e);
    RunOf(e, s, GroupChars(e), j);
    assert Vals(e, s[..j]) == vals;
  }

  /** Too little padding at the end is accepted, and so is padding in front of more text. */
  lemma LoosePaddingAccepted(e: Scheme, b: seq<byte>, p: nat, rest: string)
    requires 1 <= |b| < GroupBytes(e) && 1 <= p <= GroupChars(e) - CharsFor(e, |b|) && Decode(e, rest).Some?
    requires rest == "" || p == GroupChars(e) - CharsFor(e, |b|)
    ensures Decode(e, Chars(e, EncodeGroup(e, b)) + Pads(p) + rest) == Some(b + Decode(e, rest).value)
  {
    hide EncodeGroup, DecodeGroup, ReadGroup, BytesFor, CharsFor, Chars, Base;
    var vals := EncodeGroup(e, b);
    var s := Chars(e, vals) + Pads(p) + rest;
    GroupRoundTrip(e, b);
    ReadsShort(e, vals, p, rest);
    assert s[|vals| + p..] == rest;
  }
}
