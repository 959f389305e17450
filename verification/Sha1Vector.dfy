/** The example of section 7.3 of RFC 3174, the digest of "abc", followed through the message schedule and
    all eighty rounds: it holds the specification to the standard's numbers. */
module Sha1Vector {
  import opened Bytes
  import opened Radix
  import opened Sha1Spec
  import Sha1Stream

  const ABC: seq<byte> := [0x61, 0x62, 0x63]

  // ---- the schedule -------------------------------------------------------------------------

  ghost predicate Words0(b: Block) {
    && Schedule(b, 0) == 0x61626380 && Schedule(b, 1) == 0x00000000
    && Schedule(b, 2) == 0x00000000 && Schedule(b, 3) == 0x00000000
    && Schedule(b, 4) == 0x00000000 && Schedule(b, 5) == 0x00000000
    && Schedule(b, 6) == 0x00000000 && Schedule(b, 7) == 0x00000000
    && Schedule(b, 8) == 0x00000000 && Schedule(b, 9) == 0x00000000
    && Schedule(b, 10) == 0x00000000 && Schedule(b, 11) == 0x00000000
    && Schedule(b, 12) == 0x00000000 && Schedule(b, 13) == 0x00000000
    && Schedule(b, 14) == 0x00000000 && Schedule(b, 15) == 0x00000018
  }

  ghost predicate Words16(b: Block) {
    && Schedule(b, 16) == 0xc2c4c700 && Schedule(b, 17) == 0x00000000
    && Schedule(b, 18) == 0x00000030 && Schedule(b, 19) == 0x85898e01
    && Schedule(b, 20) == 0x00000000 && Schedule(b, 21) == 0x00000060
    && Schedule(b, 22) == 0x0b131c03 && Schedule(b, 23) == 0x00000030
    && Schedule(b, 24) == 0x85898ec1 && Schedule(b, 25) == 0x16263806
    && Schedule(b, 26) == 0x00000000 && Schedule(b, 27) == 0x00000180
    && Schedule(b, 28) == 0x2c4c700c && Schedule(b, 29) == 0x000000f0
    && Schedule(b, 30) == 0x93afb507 && Schedule(b, 31) == 0x5898e048
  }

  ghost predicate Words32(b: Block) {
    && Schedule(b, 32) == 0x8e9a9202 && Schedule(b, 33) == 0x00000600
    && Schedule(b, 34) == 0xb131c0f0 && Schedule(b, 35) == 0x16263bc6
    && Schedule(b, 36) == 0x4ebed41e && Schedule(b, 37) == 0x626380a1
    && Schedule(b, 38) == 0x16263806 && Schedule(b, 39) == 0x000018c0
    && Schedule(b, 40) == 0xd2e138c4 && Schedule(b, 41) == 0x00000f00
    && Schedule(b, 42) == 0x3afb5079 && Schedule(b, 43) == 0x898e04e5
    && Schedule(b, 44) == 0xe2ba3c2b && Schedule(b, 45) == 0x000060c0
    && Schedule(b, 46) == 0x053a37cd && Schedule(b, 47) == 0x74458547
  }

  ghost predicate Words48(b: Block) {
    && Schedule(b, 48) == 0xda9415ed && Schedule(b, 49) == 0x26380a16
    && Schedule(b, 50) == 0x626383a1 && Schedule(b, 51) == 0x4ebf54de
    && Schedule(b, 52) == 0x3835b44b && Schedule(b, 53) == 0x0000f600
    && Schedule(b, 54) == 0x1e84c7a3 && Schedule(b, 55) == 0x98e04d98
    && Schedule(b, 56) == 0x651d16a0 && Schedule(b, 57) == 0x62658ca1
    && Schedule(b, 58) == 0x458544d6 && Schedule(b, 59) == 0x44584cb7
    && Schedule(b, 60) == 0x7ba06619 && Schedule(b, 61) == 0x6380aea2
    && Schedule(b, 62) == 0x0ae55269 && Schedule(b, 63) == 0x627b49a1
  }

  ghost predicate Words64(b: Block) {
    && Schedule(b, 64) == 0x7cd45c9d && Schedule(b, 65) == 0x000f0000
    && Schedule(b, 66) == 0xfb50753a && Schedule(b, 67) == 0xec6765e8
    && Schedule(b, 68) == 0xba3c2be2 && Schedule(b, 69) == 0x0060c000
    && Schedule(b, 70) == 0x3a37cd05 && Schedule(b, 71) == 0x458546f4
    && Schedule(b, 72) == 0xb8599dd6 && Schedule(b, 73) == 0x380a1a26
    && Schedule(b, 74) == 0x01e02203 && Schedule(b, 75) == 0xe7cc3456
    && Schedule(b, 76) == 0xe6e60b69 && Schedule(b, 77) == 0x00f60a00
    && Schedule(b, 78) == 0x5795ef4f && Schedule(b, 79) == 0x822e0879
  }

  /** The padded message is one block. */
  lemma PaddedAbc()
    ensures Pad(ABC) == ABC + [0x80] + Zeros(59) + [0x18] && |Pad(ABC)| == 64
  {
    assert PadZeros(3) == 52 && LengthField(3) == Zeros(7) + [0x18] by {
      LengthOfAbc();
    }
  }

  lemma LengthOfAbc()
    ensures LengthField(3) == Zeros(7) + [0x18]
  {
    hide BigEndian;
    ZeroBytes(7);
    AppendByte(0, 7, 0x18);
    assert (0x18 as byte) as nat == 24;
  }

  lemma {:induction false} ZeroBytes(k: nat)
    ensures BigEndian(0, k) == Zeros(k)
  {
    hide ByteOf;
    SameByte(ByteOf(0), 0);
    if k > 0 {
      ZeroBytes(k - 1);
    }
  }

  lemma FirstWords(b: Block)
    requires b == ABC + [0x80] + Zeros(59) + [0x18]
    ensures Words0(b)
  {
    hide Pack;
    forall t | 0 <= t < 16
      ensures Schedule(b, t) == Pack(b[4 * t], b[4 * t + 1], b[4 * t + 2], b[4 * t + 3])
    {
      Sha1Stream.LoadWord(b, t);
    }
    PackedWords();
  }

  lemma PackedWords()
    ensures Pack(0x61, 0x62, 0x63, 0x80) == 0x61626380 && Pack(0, 0, 0, 0) == 0 && Pack(0, 0, 0, 0x18) == 0x18
  {
  }

  /** One word more. */
  lemma NextIs(b: Block, t: nat, w3: word, w8: word, w14: word, w16: word, w: word)
    requires t >= 16 && Schedule(b, t - 3) == w3 && Schedule(b, t - 8) == w8
    requires Schedule(b, t - 14) == w14 && Schedule(b, t - 16) == w16 && Mix(w3, w8, w14, w16) == w
    ensures Schedule(b, t) == w
  {
    hide Mix;
  }

  lemma NextWords16(b: Block)
    requires Words0(b)
    ensures Words16(b)
  {
    hide Schedule;
    NextIs(b, 16, 0x00000000, 0x00000000, 0x00000000, 0x61626380, 0xc2c4c700);
    NextIs(b, 17, 0x00000000, 0x00000000, 0x00000000, 0x00000000, 0x00000000);
    NextIs(b, 18, 0x00000018, 0x00000000, 0x00000000, 0x00000000, 0x00000030);
    NextIs(b, 19, 0xc2c4c700, 0x00000000, 0x00000000, 0x00000000, 0x85898e01);
    NextIs(b, 20, 0x00000000, 0x00000000, 0x00000000, 0x00000000, 0x00000000);
    NextIs(b, 21, 0x00000030, 0x00000000, 0x00000000, 0x00000000, 0x00000060);
    NextIs(b, 22, 0x85898e01, 0x00000000, 0x00000000, 0x00000000, 0x0b131c03);
    NextIs(b, 23, 0x00000000, 0x00000018, 0x00000000, 0x00000000, 0x00000030);
    NextIs(b, 24, 0x00000060, 0xc2c4c700, 0x00000000, 0x00000000, 0x85898ec1);
    NextIs(b, 25, 0x0b131c03, 0x00000000, 0x00000000, 0x00000000, 0x16263806);
    NextIs(b, 26, 0x00000030, 0x00000030, 0x00000000, 0x00000000, 0x00000000);
    NextIs(b, 27, 0x85898ec1, 0x85898e01, 0x00000000, 0x00000000, 0x00000180);
    NextIs(b, 28, 0x16263806, 0x00000000, 0x00000000, 0x00000000, 0x2c4c700c);
    NextIs(b, 29, 0x00000000, 0x00000060, 0x00000018, 0x00000000, 0x000000f0);
    NextIs(b, 30, 0x00000180, 0x0b131c03, 0xc2c4c700, 0x00000000, 0x93afb507);
    NextIs(b, 31, 0x2c4c700c, 0x00000030, 0x00000000, 0x00000018, 0x5898e048);
  }

  lemma NextWords32(b: Block)
    requires Words16(b)
    ensures Words32(b)
  {
    hide Schedule;
    NextIs(b, 32, 0x000000f0, 0x85898ec1, 0x00000030, 0xc2c4c700, 0x8e9a9202);
    NextIs(b, 33, 0x93afb507, 0x16263806, 0x85898e01, 0x00000000, 0x00000600);
    NextIs(b, 34, 0x5898e048, 0x00000000, 0x00000000, 0x00000030, 0xb131c0f0);
    NextIs(b, 35, 0x8e9a9202, 0x00000180, 0x00000060, 0x85898e01, 0x16263bc6);
    NextIs(b, 36, 0x00000600, 0x2c4c700c, 0x0b131c03, 0x00000000, 0x4ebed41e);
    NextIs(b, 37, 0xb131c0f0, 0x000000f0, 0x00000030, 0x00000060, 0x626380a1);
    NextIs(b, 38, 0x16263bc6, 0x93afb507, 0x85898ec1, 0x0b131c03, 0x16263806);
    NextIs(b, 39, 0x4ebed41e, 0x5898e048, 0x16263806, 0x00000030, 0x000018c0);
    NextIs(b, 40, 0x626380a1, 0x8e9a9202, 0x00000000, 0x85898ec1, 0xd2e138c4);
    NextIs(b, 41, 0x16263806, 0x00000600, 0x00000180, 0x16263806, 0x00000f00);
    NextIs(b, 42, 0x000018c0, 0xb131c0f0, 0x2c4c700c, 0x00000000, 0x3afb5079);
    NextIs(b, 43, 0xd2e138c4, 0x16263bc6, 0x000000f0, 0x00000180, 0x898e04e5);
    NextIs(b, 44, 0x00000f00, 0x4ebed41e, 0x93afb507, 0x2c4c700c, 0xe2ba3c2b);
    NextIs(b, 45, 0x3afb5079, 0x626380a1, 0x5898e048, 0x000000f0, 0x000060c0);
    NextIs(b, 46, 0x898e04e5, 0x16263806, 0x8e9a9202, 0x93afb507, 0x053a37cd);
    NextIs(b, 47, 0xe2ba3c2b, 0x000018c0, 0x00000600, 0x5898e048, 0x74458547);
  }

  lemma NextWords48(b: Block)
    requires Words32(b)
    ensures Words48(b)
  {
    hide Schedule;
    NextIs(b, 48, 0x000060c0, 0xd2e138c4, 0xb131c0f0, 0x8e9a9202, 0xda9415ed);
    NextIs(b, 49, 0x053a37cd, 0x00000f00, 0x16263bc6, 0x00000600, 0x26380a16);
    NextIs(b, 50, 0x74458547, 0x3afb5079, 0x4ebed41e, 0xb131c0f0, 0x626383a1);
    NextIs(b, 51, 0xda9415ed, 0x898e04e5, 0x626380a1, 0x16263bc6, 0x4ebf54de);
    NextIs(b, 52, 0x26380a16, 0xe2ba3c2b, 0x16263806, 0x4ebed41e, 0x3835b44b);
    NextIs(b, 53, 0x626383a1, 0x000060c0, 0x000018c0, 0x626380a1, 0x0000f600);
    NextIs(b, 54, 0x4ebf54de, 0x053a37cd, 0xd2e138c4, 0x16263806, 0x1e84c7a3);
    NextIs(b, 55, 0x3835b44b, 0x74458547, 0x00000f00, 0x000018c0, 0x98e04d98);
    NextIs(b, 56, 0x0000f600, 0xda9415ed, 0x3afb5079, 0xd2e138c4, 0x651d16a0);
    NextIs(b, 57, 0x1e84c7a3, 0x26380a16, 0x898e04e5, 0x00000f00, 0x62658ca1);
    NextIs(b, 58, 0x98e04d98, 0x626383a1, 0xe2ba3c2b, 0x3afb5079, 0x458544d6);
    NextIs(b, 59, 0x651d16a0, 0x4ebf54de, 0x000060c0, 0x898e04e5, 0x44584cb7);
    NextIs(b, 60, 0x62658ca1, 0x3835b44b, 0x053a37cd, 0xe2ba3c2b, 0x7ba06619);
    NextIs(b, 61, 0x458544d6, 0x0000f600, 0x74458547, 0x000060c0, 0x6380aea2);
    NextIs(b, 62, 0x44584cb7, 0x1e84c7a3, 0xda9415ed, 0x053a37cd, 0x0ae55269);
    NextIs(b, 63, 0x7ba06619, 0x98e04d98, 0x26380a16, 0x74458547, 0x627b49a1);
  }

  lemma NextWords64(b: Block)
    requires Words48(b)
    ensures Words64(b)
  {
    hide Schedule;
    NextIs(b, 64, 0x6380aea2, 0x651d16a0, 0x626383a1, 0xda9415ed, 0x7cd45c9d);
    NextIs(b, 65, 0x0ae55269, 0x62658ca1, 0x4ebf54de, 0x26380a16, 0x000f0000);
    NextIs(b, 66, 0x627b49a1, 0x458544d6, 0x3835b44b, 0x626383a1, 0xfb50753a);
    NextIs(b, 67, 0x7cd45c9d, 0x44584cb7, 0x0000f600, 0x4ebf54de, 0xec6765e8);
    NextIs(b, 68, 0x000f0000, 0x7ba06619, 0x1e84c7a3, 0x3835b44b, 0xba3c2be2);
    NextIs(b, 69, 0xfb50753a, 0x6380aea2, 0x98e04d98, 0x0000f600, 0x0060c000);
    NextIs(b, 70, 0xec6765e8, 0x0ae55269, 0x651d16a0, 0x1e84c7a3, 0x3a37cd05);
    NextIs(b, 71, 0xba3c2be2, 0x627b49a1, 0x62658ca1, 0x98e04d98, 0x458546f4);
    NextIs(b, 72, 0x0060c000, 0x7cd45c9d, 0x458544d6, 0x651d16a0, 0xb8599dd6);
    NextIs(b, 73, 0x3a37cd05, 0x000f0000, 0x44584cb7, 0x62658ca1, 0x380a1a26);
    NextIs(b, 74, 0x458546f4, 0xfb50753a, 0x7ba06619, 0x458544d6, 0x01e02203);
    NextIs(b, 75, 0xb8599dd6, 0xec6765e8, 0x6380aea2, 0x44584cb7, 0xe7cc3456);
    NextIs(b, 76, 0x380a1a26, 0xba3c2be2, 0x0ae55269, 0x7ba06619, 0xe6e60b69);
    NextIs(b, 77, 0x01e02203, 0x0060c000, 0x627b49a1, 0x6380aea2, 0x00f60a00);
    NextIs(b, 78, 0xe7cc3456, 0x3a37cd05, 0x7cd45c9d, 0x0ae55269, 0x5795ef4f);
    NextIs(b, 79, 0xe6e60b69, 0x458546f4, 0x000f0000, 0x627b49a1, 0x822e0879);
  }

  // ---- the rounds ---------------------------------------------------------------------------

  /** One round more. */
  lemma Advance(w: seq<word>, t: nat, x: word, s: Hash)
    requires t < |w| && w[t] == x && Rounds(IV, w[..t]) == s
    ensures Rounds(IV, w[..t + 1]) == Round(t, x, s)
  {
    hide Round;
    assert w[..t + 1][..t] == w[..t];
  }

  lemma Rounds0(w: seq<word>)
    requires |w| == 80 && w[0] == 0x61626380 && w[1] == 0x00000000
    requires w[2] == 0x00000000 && w[3] == 0x00000000 && w[4] == 0x00000000
    requires w[5] == 0x00000000 && w[6] == 0x00000000 && w[7] == 0x00000000
    ensures Rounds(IV, w[..8]) == Hash(0x9e8c07d4, 0x993e30c1, 0x0ff1f290, 0xb3f52677, 0xf3763846)
  {
    hide Rounds;
    NoRounds(w);
    Advance(w, 0, 0x61626380, Hash(0x67452301, 0xefcdab89, 0x98badcfe, 0x10325476, 0xc3d2e1f0));
    assert Rounds(IV, w[..1]) == Hash(0x0116fc33, 0x67452301, 0x7bf36ae2, 0x98badcfe, 0x10325476);
    Advance(w, 1, 0x00000000, Hash(0x0116fc33, 0x67452301, 0x7bf36ae2, 0x98badcfe, 0x10325476));
    assert Rounds(IV, w[..2]) == Hash(0x8990536d, 0x0116fc33, 0x59d148c0, 0x7bf36ae2, 0x98badcfe);
    Advance(w, 2, 0x00000000, Hash(0x8990536d, 0x0116fc33, 0x59d148c0, 0x7bf36ae2, 0x98badcfe));
    assert Rounds(IV, w[..3]) == Hash(0xa1390f08, 0x8990536d, 0xc045bf0c, 0x59d148c0, 0x7bf36ae2);
    Advance(w, 3, 0x00000000, Hash(0xa1390f08, 0x8990536d, 0xc045bf0c, 0x59d148c0, 0x7bf36ae2));
    assert Rounds(IV, w[..4]) == Hash(0xcdd8e11b, 0xa1390f08, 0x626414db, 0xc045bf0c, 0x59d148c0);
    Advance(w, 4, 0x00000000, Hash(0xcdd8e11b, 0xa1390f08, 0x626414db, 0xc045bf0c, 0x59d148c0));
    assert Rounds(IV, w[..5]) == Hash(0xcfd499de, 0xcdd8e11b, 0x284e43c2, 0x626414db, 0xc045bf0c);
    Advance(w, 5, 0x00000000, Hash(0xcfd499de, 0xcdd8e11b, 0x284e43c2, 0x626414db, 0xc045bf0c));
    assert Rounds(IV, w[..6]) == Hash(0x3fc7ca40, 0xcfd499de, 0xf3763846, 0x284e43c2, 0x626414db);
    Advance(w, 6, 0x00000000, Hash(0x3fc7ca40, 0xcfd499de, 0xf3763846, 0x284e43c2, 0x626414db));
    assert Rounds(IV, w[..7]) == Hash(0x993e30c1, 0x3fc7ca40, 0xb3f52677, 0xf3763846, 0x284e43c2);
    Advance(w, 7, 0x00000000, Hash(0x993e30c1, 0x3fc7ca40, 0xb3f52677, 0xf3763846, 0x284e43c2));
    assert Rounds(IV, w[..8]) == Hash(0x9e8c07d4, 0x993e30c1, 0x0ff1f290, 0xb3f52677, 0xf3763846);
  }

  lemma Rounds8(w: seq<word>)
    requires |w| == 80 && w[8] == 0x00000000 && w[9] == 0x00000000
    requires w[10] == 0x00000000 && w[11] == 0x00000000 && w[12] == 0x00000000
    requires w[13] == 0x00000000 && w[14] == 0x00000000 && w[15] == 0x00000018
    requires Rounds(IV, w[..8]) == Hash(0x9e8c07d4, 0x993e30c1, 0x0ff1f290, 0xb3f52677, 0xf3763846)
    ensures Rounds(IV, w[..16]) == Hash(0x20bdd62f, 0x196bee77, 0x644a3da5, 0x1181ed99, 0x18c623f9)
  {
    hide Rounds;
    Advance(w, 8, 0x00000000, Hash(0x9e8c07d4, 0x993e30c1, 0x0ff1f290, 0xb3f52677, 0xf3763846));
    assert Rounds(IV, w[..9]) == Hash(0x4b6ae328, 0x9e8c07d4, 0x664f8c30, 0x0ff1f290, 0xb3f52677);
    Advance(w, 9, 0x00000000, Hash(0x4b6ae328, 0x9e8c07d4, 0x664f8c30, 0x0ff1f290, 0xb3f52677));
    assert Rounds(IV, w[..10]) == Hash(0x8351f929, 0x4b6ae328, 0x27a301f5, 0x664f8c30, 0x0ff1f290);
    Advance(w, 10, 0x00000000, Hash(0x8351f929, 0x4b6ae328, 0x27a301f5, 0x664f8c30, 0x0ff1f290));
    assert Rounds(IV, w[..11]) == Hash(0xfbda9e89, 0x8351f929, 0x12dab8ca, 0x27a301f5, 0x664f8c30);
    Advance(w, 11, 0x00000000, Hash(0xfbda9e89, 0x8351f929, 0x12dab8ca, 0x27a301f5, 0x664f8c30));
    assert Rounds(IV, w[..12]) == Hash(0x63188fe4, 0xfbda9e89, 0x60d47e4a, 0x12dab8ca, 0x27a301f5);
    Advance(w, 12, 0x00000000, Hash(0x63188fe4, 0xfbda9e89, 0x60d47e4a, 0x12dab8ca, 0x27a301f5));
    assert Rounds(IV, w[..13]) == Hash(0x4607b664, 0x63188fe4, 0x7ef6a7a2, 0x60d47e4a, 0x12dab8ca);
    Advance(w, 13, 0x00000000, Hash(0x4607b664, 0x63188fe4, 0x7ef6a7a2, 0x60d47e4a, 0x12dab8ca));
    assert Rounds(IV, w[..14]) == Hash(0x9128f695, 0x4607b664, 0x18c623f9, 0x7ef6a7a2, 0x60d47e4a);
    Advance(w, 14, 0x00000000, Hash(0x9128f695, 0x4607b664, 0x18c623f9, 0x7ef6a7a2, 0x60d47e4a));
    assert Rounds(IV, w[..15]) == Hash(0x196bee77, 0x9128f695, 0x1181ed99, 0x18c623f9, 0x7ef6a7a2);
    Advance(w, 15, 0x00000018, Hash(0x196bee77, 0x9128f695, 0x1181ed99, 0x18c623f9, 0x7ef6a7a2));
    assert Rounds(IV, w[..16]) == Hash(0x20bdd62f, 0x196bee77, 0x644a3da5, 0x1181ed99, 0x18c623f9);
  }

  lemma Rounds16(w: seq<word>)
    requires |w| == 80 && w[16] == 0xc2c4c700 && w[17] == 0x00000000
    requires w[18] == 0x00000030 && w[19] == 0x85898e01 && w[20] == 0x00000000
    requires w[21] == 0x00000060 && w[22] == 0x0b131c03 && w[23] == 0x00000030
    requires Rounds(IV, w[..16]) == Hash(0x20bdd62f, 0x196bee77, 0x644a3da5, 0x1181ed99, 0x18c623f9)
    ensures Rounds(IV, w[..24]) == Hash(0xd541f12d, 0x21283486, 0x0ce88eff, 0x868dec32, 0x7f67875f)
  {
    hide Rounds;
    Advance(w, 16, 0xc2c4c700, Hash(0x20bdd62f, 0x196bee77, 0x644a3da5, 0x1181ed99, 0x18c623f9));
    assert Rounds(IV, w[..17]) == Hash(0x4e925823, 0x20bdd62f, 0xc65afb9d, 0x644a3da5, 0x1181ed99);
    Advance(w, 17, 0x00000000, Hash(0x4e925823, 0x20bdd62f, 0xc65afb9d, 0x644a3da5, 0x1181ed99));
    assert Rounds(IV, w[..18]) == Hash(0x82aa6728, 0x4e925823, 0xc82f758b, 0xc65afb9d, 0x644a3da5);
    Advance(w, 18, 0x00000030, Hash(0x82aa6728, 0x4e925823, 0xc82f758b, 0xc65afb9d, 0x644a3da5));
    assert Rounds(IV, w[..19]) == Hash(0xdc64901d, 0x82aa6728, 0xd3a49608, 0xc82f758b, 0xc65afb9d);
    Advance(w, 19, 0x85898e01, Hash(0xdc64901d, 0x82aa6728, 0xd3a49608, 0xc82f758b, 0xc65afb9d));
    assert Rounds(IV, w[..20]) == Hash(0xfd9e1d7d, 0xdc64901d, 0x20aa99ca, 0xd3a49608, 0xc82f758b);
    Advance(w, 20, 0x00000000, Hash(0xfd9e1d7d, 0xdc64901d, 0x20aa99ca, 0xd3a49608, 0xc82f758b));
    assert Rounds(IV, w[..21]) == Hash(0x1a37b0ca, 0xfd9e1d7d, 0x77192407, 0x20aa99ca, 0xd3a49608);
    Advance(w, 21, 0x00000060, Hash(0x1a37b0ca, 0xfd9e1d7d, 0x77192407, 0x20aa99ca, 0xd3a49608));
    assert Rounds(IV, w[..22]) == Hash(0x33a23bfc, 0x1a37b0ca, 0x7f67875f, 0x77192407, 0x20aa99ca);
    Advance(w, 22, 0x0b131c03, Hash(0x33a23bfc, 0x1a37b0ca, 0x7f67875f, 0x77192407, 0x20aa99ca));
    assert Rounds(IV, w[..23]) == Hash(0x21283486, 0x33a23bfc, 0x868dec32, 0x7f67875f, 0x77192407);
    Advance(w, 23, 0x00000030, Hash(0x21283486, 0x33a23bfc, 0x868dec32, 0x7f67875f, 0x77192407));
    assert Rounds(IV, w[..24]) == Hash(0xd541f12d, 0x21283486, 0x0ce88eff, 0x868dec32, 0x7f67875f);
  }

  lemma Rounds24(w: seq<word>)
    requires |w| == 80 && w[24] == 0x85898ec1 && w[25] == 0x16263806
    requires w[26] == 0x00000000 && w[27] == 0x00000180 && w[28] == 0x2c4c700c
    requires w[29] == 0x000000f0 && w[30] == 0x93afb507 && w[31] == 0x5898e048
    requires Rounds(IV, w[..24]) == Hash(0xd541f12d, 0x21283486, 0x0ce88eff, 0x868dec32, 0x7f67875f)
    ensures Rounds(IV, w[..32]) == Hash(0x3b845d33, 0x1267b407, 0x717eebd7, 0xa0dc2d4b, 0xd2aa1365)
  {
    hide Rounds;
    Advance(w, 24, 0x85898ec1, Hash(0xd541f12d, 0x21283486, 0x0ce88eff, 0x868dec32, 0x7f67875f));
    assert Rounds(IV, w[..25]) == Hash(0xc7567dc6, 0xd541f12d, 0x884a0d21, 0x0ce88eff, 0x868dec32);
    Advance(w, 25, 0x16263806, Hash(0xc7567dc6, 0xd541f12d, 0x884a0d21, 0x0ce88eff, 0x868dec32));
    assert Rounds(IV, w[..26]) == Hash(0x48413ba4, 0xc7567dc6, 0x75507c4b, 0x884a0d21, 0x0ce88eff);
    Advance(w, 26, 0x00000000, Hash(0x48413ba4, 0xc7567dc6, 0x75507c4b, 0x884a0d21, 0x0ce88eff));
    assert Rounds(IV, w[..27]) == Hash(0xbe35fbd5, 0x48413ba4, 0xb1d59f71, 0x75507c4b, 0x884a0d21);
    Advance(w, 27, 0x00000180, Hash(0xbe35fbd5, 0x48413ba4, 0xb1d59f71, 0x75507c4b, 0x884a0d21));
    assert Rounds(IV, w[..28]) == Hash(0x4aa84d97, 0xbe35fbd5, 0x12104ee9, 0xb1d59f71, 0x75507c4b);
    Advance(w, 28, 0x2c4c700c, Hash(0x4aa84d97, 0xbe35fbd5, 0x12104ee9, 0xb1d59f71, 0x75507c4b));
    assert Rounds(IV, w[..29]) == Hash(0x8370b52e, 0x4aa84d97, 0x6f8d7ef5, 0x12104ee9, 0xb1d59f71);
    Advance(w, 29, 0x000000f0, Hash(0x8370b52e, 0x4aa84d97, 0x6f8d7ef5, 0x12104ee9, 0xb1d59f71));
    assert Rounds(IV, w[..30]) == Hash(0xc5fbaf5d, 0x8370b52e, 0xd2aa1365, 0x6f8d7ef5, 0x12104ee9);
    Advance(w, 30, 0x93afb507, Hash(0xc5fbaf5d, 0x8370b52e, 0xd2aa1365, 0x6f8d7ef5, 0x12104ee9));
    assert Rounds(IV, w[..31]) == Hash(0x1267b407, 0xc5fbaf5d, 0xa0dc2d4b, 0xd2aa1365, 0x6f8d7ef5);
    Advance(w, 31, 0x5898e048, Hash(0x1267b407, 0xc5fbaf5d, 0xa0dc2d4b, 0xd2aa1365, 0x6f8d7ef5));
    assert Rounds(IV, w[..32]) == Hash(0x3b845d33, 0x1267b407, 0x717eebd7, 0xa0dc2d4b, 0xd2aa1365);
  }

  lemma Rounds32(w: seq<word>)
    requires |w| == 80 && w[32] == 0x8e9a9202 && w[33] == 0x00000600
    requires w[34] == 0xb131c0f0 && w[35] == 0x16263bc6 && w[36] == 0x4ebed41e
    requires w[37] == 0x626380a1 && w[38] == 0x16263806 && w[39] == 0x000018c0
    requires Rounds(IV, w[..32]) == Hash(0x3b845d33, 0x1267b407, 0x717eebd7, 0xa0dc2d4b, 0xd2aa1365)
    ensures Rounds(IV, w[..40]) == Hash(0x32de1cba, 0x4c986405, 0xf718e5cf, 0x03d447f6, 0xf72eec32)
  {
    hide Rounds;
    Advance(w, 32, 0x8e9a9202, Hash(0x3b845d33, 0x1267b407, 0x717eebd7, 0xa0dc2d4b, 0xd2aa1365));
    assert Rounds(IV, w[..33]) == Hash(0x046faa0a, 0x3b845d33, 0xc499ed01, 0x717eebd7, 0xa0dc2d4b);
    Advance(w, 33, 0x00000600, Hash(0x046faa0a, 0x3b845d33, 0xc499ed01, 0x717eebd7, 0xa0dc2d4b));
    assert Rounds(IV, w[..34]) == Hash(0x2c0ebc11, 0x046faa0a, 0xcee1174c, 0xc499ed01, 0x717eebd7);
    Advance(w, 34, 0xb131c0f0, Hash(0x2c0ebc11, 0x046faa0a, 0xcee1174c, 0xc499ed01, 0x717eebd7));
    assert Rounds(IV, w[..35]) == Hash(0x21796ad4, 0x2c0ebc11, 0x811bea82, 0xcee1174c, 0xc499ed01);
    Advance(w, 35, 0x16263bc6, Hash(0x21796ad4, 0x2c0ebc11, 0x811bea82, 0xcee1174c, 0xc499ed01));
    assert Rounds(IV, w[..36]) == Hash(0xdcbbb0cb, 0x21796ad4, 0x4b03af04, 0x811bea82, 0xcee1174c);
    Advance(w, 36, 0x4ebed41e, Hash(0xdcbbb0cb, 0x21796ad4, 0x4b03af04, 0x811bea82, 0xcee1174c));
    assert Rounds(IV, w[..37]) == Hash(0x0f511fd8, 0xdcbbb0cb, 0x085e5ab5, 0x4b03af04, 0x811bea82);
    Advance(w, 37, 0x626380a1, Hash(0x0f511fd8, 0xdcbbb0cb, 0x085e5ab5, 0x4b03af04, 0x811bea82));
    assert Rounds(IV, w[..38]) == Hash(0xdc63973f, 0x0f511fd8, 0xf72eec32, 0x085e5ab5, 0x4b03af04);
    Advance(w, 38, 0x16263806, Hash(0xdc63973f, 0x0f511fd8, 0xf72eec32, 0x085e5ab5, 0x4b03af04));
    assert Rounds(IV, w[..39]) == Hash(0x4c986405, 0xdc63973f, 0x03d447f6, 0xf72eec32, 0x085e5ab5);
    Advance(w, 39, 0x000018c0, Hash(0x4c986405, 0xdc63973f, 0x03d447f6, 0xf72eec32, 0x085e5ab5));
    assert Rounds(IV, w[..40]) == Hash(0x32de1cba, 0x4c986405, 0xf718e5cf, 0x03d447f6, 0xf72eec32);
  }

  lemma Rounds40(w: seq<word>)
    requires |w| == 80 && w[40] == 0xd2e138c4 && w[41] == 0x00000f00
    requires w[42] == 0x3afb5079 && w[43] == 0x898e04e5 && w[44] == 0xe2ba3c2b
    requires w[45] == 0x000060c0 && w[46] == 0x053a37cd && w[47] == 0x74458547
    requires Rounds(IV, w[..40]) == Hash(0x32de1cba, 0x4c986405, 0xf718e5cf, 0x03d447f6, 0xf72eec32)
    ensures Rounds(IV, w[..48]) == Hash(0xbead02ca, 0xa01b846c, 0x8714787c, 0x503ca382, 0xfb86c6ab)
  {
    hide Rounds;
    Advance(w, 40, 0xd2e138c4, Hash(0x32de1cba, 0x4c986405, 0xf718e5cf, 0x03d447f6, 0xf72eec32));
    assert Rounds(IV, w[..41]) == Hash(0xfc87dedf, 0x32de1cba, 0x53261901, 0xf718e5cf, 0x03d447f6);
    Advance(w, 41, 0x00000f00, Hash(0xfc87dedf, 0x32de1cba, 0x53261901, 0xf718e5cf, 0x03d447f6));
    assert Rounds(IV, w[..42]) == Hash(0x970a0d5c, 0xfc87dedf, 0x8cb7872e, 0x53261901, 0xf718e5cf);
    Advance(w, 42, 0x3afb5079, Hash(0x970a0d5c, 0xfc87dedf, 0x8cb7872e, 0x53261901, 0xf718e5cf));
    assert Rounds(IV, w[..43]) == Hash(0x7f193dc5, 0x970a0d5c, 0xff21f7b7, 0x8cb7872e, 0x53261901);
    Advance(w, 43, 0x898e04e5, Hash(0x7f193dc5, 0x970a0d5c, 0xff21f7b7, 0x8cb7872e, 0x53261901));
    assert Rounds(IV, w[..44]) == Hash(0xee1b1aaf, 0x7f193dc5, 0x25c28357, 0xff21f7b7, 0x8cb7872e);
    Advance(w, 44, 0xe2ba3c2b, Hash(0xee1b1aaf, 0x7f193dc5, 0x25c28357, 0xff21f7b7, 0x8cb7872e));
    assert Rounds(IV, w[..45]) == Hash(0x40f28e09, 0xee1b1aaf, 0x5fc64f71, 0x25c28357, 0xff21f7b7);
    Advance(w, 45, 0x000060c0, Hash(0x40f28e09, 0xee1b1aaf, 0x5fc64f71, 0x25c28357, 0xff21f7b7));
    assert Rounds(IV, w[..46]) == Hash(0x1c51e1f2, 0x40f28e09, 0xfb86c6ab, 0x5fc64f71, 0x25c28357);
    Advance(w, 46, 0x053a37cd, Hash(0x1c51e1f2, 0x40f28e09, 0xfb86c6ab, 0x5fc64f71, 0x25c28357));
    assert Rounds(IV, w[..47]) == Hash(0xa01b846c, 0x1c51e1f2, 0x503ca382, 0xfb86c6ab, 0x5fc64f71);
    Advance(w, 47, 0x74458547, Hash(0xa01b846c, 0x1c51e1f2, 0x503ca382, 0xfb86c6ab, 0x5fc64f71));
    assert Rounds(IV, w[..48]) == Hash(0xbead02ca, 0xa01b846c, 0x8714787c, 0x503ca382, 0xfb86c6ab);
  }

  lemma Rounds48(w: seq<word>)
    requires |w| == 80 && w[48] == 0xda9415ed && w[49] == 0x26380a16
    requires w[50] == 0x626383a1 && w[51] == 0x4ebf54de && w[52] == 0x3835b44b
    requires w[53] == 0x0000f600 && w[54] == 0x1e84c7a3 && w[55] == 0x98e04d98
    requires Rounds(IV, w[..48]) == Hash(0xbead02ca, 0xa01b846c, 0x8714787c, 0x503ca382, 0xfb86c6ab)
    ensures Rounds(IV, w[..56]) == Hash(0x5e6456af, 0x7b71f76d, 0x09fa7c76, 0x792410db, 0x8e11eb59)
  {
    hide Rounds;
    Advance(w, 48, 0xda9415ed, Hash(0xbead02ca, 0xa01b846c, 0x8714787c, 0x503ca382, 0xfb86c6ab));
    assert Rounds(IV, w[..49]) == Hash(0xbaf39337, 0xbead02ca, 0x2806e11b, 0x8714787c, 0x503ca382);
    Advance(w, 49, 0x26380a16, Hash(0xbaf39337, 0xbead02ca, 0x2806e11b, 0x8714787c, 0x503ca382));
    assert Rounds(IV, w[..50]) == Hash(0x120731c5, 0xbaf39337, 0xafab40b2, 0x2806e11b, 0x8714787c);
    Advance(w, 50, 0x626383a1, Hash(0x120731c5, 0xbaf39337, 0xafab40b2, 0x2806e11b, 0x8714787c));
    assert Rounds(IV, w[..51]) == Hash(0x641db2ce, 0x120731c5, 0xeebce4cd, 0xafab40b2, 0x2806e11b);
    Advance(w, 51, 0x4ebf54de, Hash(0x641db2ce, 0x120731c5, 0xeebce4cd, 0xafab40b2, 0x2806e11b));
    assert Rounds(IV, w[..52]) == Hash(0x3847ad66, 0x641db2ce, 0x4481cc71, 0xeebce4cd, 0xafab40b2);
    Advance(w, 52, 0x3835b44b, Hash(0x3847ad66, 0x641db2ce, 0x4481cc71, 0xeebce4cd, 0xafab40b2));
    assert Rounds(IV, w[..53]) == Hash(0xe490436d, 0x3847ad66, 0x99076cb3, 0x4481cc71, 0xeebce4cd);
    Advance(w, 53, 0x0000f600, Hash(0xe490436d, 0x3847ad66, 0x99076cb3, 0x4481cc71, 0xeebce4cd));
    assert Rounds(IV, w[..54]) == Hash(0x27e9f1d8, 0xe490436d, 0x8e11eb59, 0x99076cb3, 0x4481cc71);
    Advance(w, 54, 0x1e84c7a3, Hash(0x27e9f1d8, 0xe490436d, 0x8e11eb59, 0x99076cb3, 0x4481cc71));
    assert Rounds(IV, w[..55]) == Hash(0x7b71f76d, 0x27e9f1d8, 0x792410db, 0x8e11eb59, 0x99076cb3);
    Advance(w, 55, 0x98e04d98, Hash(0x7b71f76d, 0x27e9f1d8, 0x792410db, 0x8e11eb59, 0x99076cb3));
    assert Rounds(IV, w[..56]) == Hash(0x5e6456af, 0x7b71f76d, 0x09fa7c76, 0x792410db, 0x8e11eb59);
  }

  lemma Rounds56(w: seq<word>)
    requires |w| == 80 && w[56] == 0x651d16a0 && w[57] == 0x62658ca1
    requires w[58] == 0x458544d6 && w[59] == 0x44584cb7 && w[60] == 0x7ba06619
    requires w[61] == 0x6380aea2 && w[62] == 0x0ae55269 && w[63] == 0x627b49a1
    requires Rounds(IV, w[..56]) == Hash(0x5e6456af, 0x7b71f76d, 0x09fa7c76, 0x792410db, 0x8e11eb59)
    ensures Rounds(IV, w[..64]) == Hash(0x6b61c9e1, 0xb66c020b, 0x9523272c, 0xf5d5b051, 0x8fd4b796)
  {
    hide Rounds;
    Advance(w, 56, 0x651d16a0, Hash(0x5e6456af, 0x7b71f76d, 0x09fa7c76, 0x792410db, 0x8e11eb59));
    assert Rounds(IV, w[..57]) == Hash(0xc846093f, 0x5e6456af, 0x5edc7ddb, 0x09fa7c76, 0x792410db);
    Advance(w, 57, 0x62658ca1, Hash(0xc846093f, 0x5e6456af, 0x5edc7ddb, 0x09fa7c76, 0x792410db));
    assert Rounds(IV, w[..58]) == Hash(0xd262ff50, 0xc846093f, 0xd79915ab, 0x5edc7ddb, 0x09fa7c76);
    Advance(w, 58, 0x458544d6, Hash(0xd262ff50, 0xc846093f, 0xd79915ab, 0x5edc7ddb, 0x09fa7c76));
    assert Rounds(IV, w[..59]) == Hash(0x09d785fd, 0xd262ff50, 0xf211824f, 0xd79915ab, 0x5edc7ddb);
    Advance(w, 59, 0x44584cb7, Hash(0x09d785fd, 0xd262ff50, 0xf211824f, 0xd79915ab, 0x5edc7ddb));
    assert Rounds(IV, w[..60]) == Hash(0x3f52de5a, 0x09d785fd, 0x3498bfd4, 0xf211824f, 0xd79915ab);
    Advance(w, 60, 0x7ba06619, Hash(0x3f52de5a, 0x09d785fd, 0x3498bfd4, 0xf211824f, 0xd79915ab));
    assert Rounds(IV, w[..61]) == Hash(0xd756c147, 0x3f52de5a, 0x4275e17f, 0x3498bfd4, 0xf211824f);
    Advance(w, 61, 0x6380aea2, Hash(0xd756c147, 0x3f52de5a, 0x4275e17f, 0x3498bfd4, 0xf211824f));
    assert Rounds(IV, w[..62]) == Hash(0x548c9cb2, 0xd756c147, 0x8fd4b796, 0x4275e17f, 0x3498bfd4);
    Advance(w, 62, 0x0ae55269, Hash(0x548c9cb2, 0xd756c147, 0x8fd4b796, 0x4275e17f, 0x3498bfd4));
    assert Rounds(IV, w[..63]) == Hash(0xb66c020b, 0x548c9cb2, 0xf5d5b051, 0x8fd4b796, 0x4275e17f);
    Advance(w, 63, 0x627b49a1, Hash(0xb66c020b, 0x548c9cb2, 0xf5d5b051, 0x8fd4b796, 0x4275e17f));
    assert Rounds(IV, w[..64]) == Hash(0x6b61c9e1, 0xb66c020b, 0x9523272c, 0xf5d5b051, 0x8fd4b796);
  }

  lemma Rounds64(w: seq<word>)
    requires |w| == 80 && w[64] == 0x7cd45c9d && w[65] == 0x000f0000
    requires w[66] == 0xfb50753a && w[67] == 0xec6765e8 && w[68] == 0xba3c2be2
    requires w[69] == 0x0060c000 && w[70] == 0x3a37cd05 && w[71] == 0x458546f4
    requires Rounds(IV, w[..64]) == Hash(0x6b61c9e1, 0xb66c020b, 0x9523272c, 0xf5d5b051, 0x8fd4b796)
    ensures Rounds(IV, w[..72]) == Hash(0x39859de7, 0xc199f8c7, 0x8fc96230, 0x125c24f0, 0xde37534a)
  {
    hide Rounds;
    Advance(w, 64, 0x7cd45c9d, Hash(0x6b61c9e1, 0xb66c020b, 0x9523272c, 0xf5d5b051, 0x8fd4b796));
    assert Rounds(IV, w[..65]) == Hash(0x19dfa7ac, 0x6b61c9e1, 0xed9b0082, 0x9523272c, 0xf5d5b051);
    Advance(w, 65, 0x000f0000, Hash(0x19dfa7ac, 0x6b61c9e1, 0xed9b0082, 0x9523272c, 0xf5d5b051));
    assert Rounds(IV, w[..66]) == Hash(0x101655f9, 0x19dfa7ac, 0x5ad87278, 0xed9b0082, 0x9523272c);
    Advance(w, 66, 0xfb50753a, Hash(0x101655f9, 0x19dfa7ac, 0x5ad87278, 0xed9b0082, 0x9523272c));
    assert Rounds(IV, w[..67]) == Hash(0x0c3df2b4, 0x101655f9, 0x0677e9eb, 0x5ad87278, 0xed9b0082);
    Advance(w, 67, 0xec6765e8, Hash(0x0c3df2b4, 0x101655f9, 0x0677e9eb, 0x5ad87278, 0xed9b0082));
    assert Rounds(IV, w[..68]) == Hash(0x78dd4d2b, 0x0c3df2b4, 0x4405957e, 0x0677e9eb, 0x5ad87278);
    Advance(w, 68, 0xba3c2be2, Hash(0x78dd4d2b, 0x0c3df2b4, 0x4405957e, 0x0677e9eb, 0x5ad87278));
    assert Rounds(IV, w[..69]) == Hash(0x497093c0, 0x78dd4d2b, 0x030f7cad, 0x4405957e, 0x0677e9eb);
    Advance(w, 69, 0x0060c000, Hash(0x497093c0, 0x78dd4d2b, 0x030f7cad, 0x4405957e, 0x0677e9eb));
    assert Rounds(IV, w[..70]) == Hash(0x3f2588c2, 0x497093c0, 0xde37534a, 0x030f7cad, 0x4405957e);
    Advance(w, 70, 0x3a37cd05, Hash(0x3f2588c2, 0x497093c0, 0xde37534a, 0x030f7cad, 0x4405957e));
    assert Rounds(IV, w[..71]) == Hash(0xc199f8c7, 0x3f2588c2, 0x125c24f0, 0xde37534a, 0x030f7cad);
    Advance(w, 71, 0x458546f4, Hash(0xc199f8c7, 0x3f2588c2, 0x125c24f0, 0xde37534a, 0x030f7cad));
    assert Rounds(IV, w[..72]) == Hash(0x39859de7, 0xc199f8c7, 0x8fc96230, 0x125c24f0, 0xde37534a);
  }

  lemma Rounds72(w: seq<word>)
    requires |w| == 80 && w[72] == 0xb8599dd6 && w[73] == 0x380a1a26
    requires w[74] == 0x01e02203 && w[75] == 0xe7cc3456 && w[76] == 0xe6e60b69
    requires w[77] == 0x00f60a00 && w[78] == 0x5795ef4f && w[79] == 0x822e0879
    requires Rounds(IV, w[..72]) == Hash(0x39859de7, 0xc199f8c7, 0x8fc96230, 0x125c24f0, 0xde37534a)
    ensures Rounds(IV, w[..80]) == Hash(0x42541b35, 0x5738d5e1, 0x21834873, 0x681e6df6, 0xd8fdf6ad)
  {
    hide Rounds;
    Advance(w, 72, 0xb8599dd6, Hash(0x39859de7, 0xc199f8c7, 0x8fc96230, 0x125c24f0, 0xde37534a));
    assert Rounds(IV, w[..73]) == Hash(0xedb42de4, 0x39859de7, 0xf0667e31, 0x8fc96230, 0x125c24f0);
    Advance(w, 73, 0x380a1a26, Hash(0xedb42de4, 0x39859de7, 0xf0667e31, 0x8fc96230, 0x125c24f0));
    assert Rounds(IV, w[..74]) == Hash(0x11793f6f, 0xedb42de4, 0xce616779, 0xf0667e31, 0x8fc96230);
    Advance(w, 74, 0x01e02203, Hash(0x11793f6f, 0xedb42de4, 0xce616779, 0xf0667e31, 0x8fc96230));
    assert Rounds(IV, w[..75]) == Hash(0x5ee76897, 0x11793f6f, 0x3b6d0b79, 0xce616779, 0xf0667e31);
    Advance(w, 75, 0xe7cc3456, Hash(0x5ee76897, 0x11793f6f, 0x3b6d0b79, 0xce616779, 0xf0667e31));
    assert Rounds(IV, w[..76]) == Hash(0x63f7dab7, 0x5ee76897, 0xc45e4fdb, 0x3b6d0b79, 0xce616779);
    Advance(w, 76, 0xe6e60b69, Hash(0x63f7dab7, 0x5ee76897, 0xc45e4fdb, 0x3b6d0b79, 0xce616779));
    assert Rounds(IV, w[..77]) == Hash(0xa079b7d9, 0x63f7dab7, 0xd7b9da25, 0xc45e4fdb, 0x3b6d0b79);
    Advance(w, 77, 0x00f60a00, Hash(0xa079b7d9, 0x63f7dab7, 0xd7b9da25, 0xc45e4fdb, 0x3b6d0b79));
    assert Rounds(IV, w[..78]) == Hash(0x860d21cc, 0xa079b7d9, 0xd8fdf6ad, 0xd7b9da25, 0xc45e4fdb);
    Advance(w, 78, 0x5795ef4f, Hash(0x860d21cc, 0xa079b7d9, 0xd8fdf6ad, 0xd7b9da25, 0xc45e4fdb));
    assert Rounds(IV, w[..79]) == Hash(0x5738d5e1, 0x860d21cc, 0x681e6df6, 0xd8fdf6ad, 0xd7b9da25);
    Advance(w, 79, 0x822e0879, Hash(0x5738d5e1, 0x860d21cc, 0x681e6df6, 0xd8fdf6ad, 0xd7b9da25));
    assert Rounds(IV, w[..80]) == Hash(0x42541b35, 0x5738d5e1, 0x21834873, 0x681e6df6, 0xd8fdf6ad);
  }

  lemma NoRounds(w: seq<word>)
    ensures Rounds(IV, w[..0]) == IV
  {
  }

  lemma CompressAbc(b: Block)
    requires b == ABC + [0x80] + Zeros(59) + [0x18]
    ensures Compress(IV, b) == Hash(0xa9993e36, 0x4706816a, 0xba3e2571, 0x7850c26c, 0x9cd0d89d)
  {
    hide Rounds, Schedule;
    var w := ScheduleWords(b);
    FirstWords(b);
    NextWords16(b);
    NextWords32(b);
    NextWords48(b);
    NextWords64(b);
    Rounds0(w);
    Rounds8(w);
    Rounds16(w);
    Rounds24(w);
    Rounds32(w);
    Rounds40(w);
    Rounds48(w);
    Rounds56(w);
    Rounds64(w);
    Rounds72(w);
    assert w[..80] == w;
  }

  lemma DigestBytes()
    ensures HashBytes(Hash(0xa9993e36, 0x4706816a, 0xba3e2571, 0x7850c26c, 0x9cd0d89d))
         == [0xa9, 0x99, 0x3e, 0x36, 0x47, 0x06, 0x81, 0x6a, 0xba, 0x3e,
             0x25, 0x71, 0x78, 0x50, 0xc2, 0x6c, 0x9c, 0xd0, 0xd8, 0x9d]
  {
  }

  /** The digest of "abc". */
  lemma DigestOfAbc()
    ensures Sha1([0x61, 0x62, 0x63])
         == [0xa9, 0x99, 0x3e, 0x36, 0x47, 0x06, 0x81, 0x6a, 0xba, 0x3e,
             0x25, 0x71, 0x78, 0x50, 0xc2, 0x6c, 0x9c, 0xd0, 0xd8, 0x9d]
  {
    hide Compress, HashBytes, Pad;
    var p := Pad(ABC);
    PaddedAbc();
    CompressAbc(p);
    assert p[64 * 0..64 * 1] == p;
    assert Chain(p, 1) == Compress(Chain(p, 0), p[64 * 0..64 * 1]) && |p| / 64 == 1;
    DigestBytes();
  }
}
