/** Whole netlink messages: the fixed part msg_start and msg_set fill in, and the three-message
    batch nl_talk_wrapped puts around a rule. */
module NftMessages {
  import opened Bytes
  import opened Radix
  import opened Nlattr

  // ---- messages -----------------------------------------------------------------------------

  /** The fields of struct nlmsghdr (but its length) and struct nfgenmsg (version 0). */
  datatype Header = Header(kind: nat, flags: nat, seqno: nat, pid: nat, family: nat, resId: nat)

  function FixedPart(len: nat, h: Header): (b: seq<byte>)
    ensures |b| == FIXED_LEN
  {
    LittleEndian(len, 4) + LittleEndian(h.kind, 2) + LittleEndian(h.flags, 2)
    + LittleEndian(h.seqno, 4) + LittleEndian(h.pid, 4) + LittleEndian(h.family, 1) + [0] + BigEndian(h.resId, 2)
  }

  ghost predicate HeaderFits(h: Header) {
    h.kind < 0x1_0000 && h.flags < 0x1_0000 && h.seqno < TWO32 && h.pid < TWO32 && h.family < 256 && h.resId < 0x1_0000
  }

  /** Length and fields of the fixed part. */
  function ReadFixed(b: seq<byte>): (nat, Header)
    requires |b| == FIXED_LEN
  {
    (FromLittleEndian(b[..4]),
     Header(FromLittleEndian(b[4..6]), FromLittleEndian(b[6..8]), FromLittleEndian(b[8..12]),
            FromLittleEndian(b[12..16]), FromLittleEndian(b[16..17]), Number(b[18..20])))
  }

  lemma FixedReads(len: nat, h: Header)
    requires len < TWO32 && HeaderFits(h)
    ensures ReadFixed(FixedPart(len, h)) == (len, h)
  {
    hide LittleEndian, FromLittleEndian, BigEndian, Number;
    var b := FixedPart(len, h);
    assert Pow256(1) == 256 && Pow256(2) == 0x1_0000 && Pow256(4) == TWO32;
    LittleEndianReads(len, 4);
    LittleEndianReads(h.kind, 2);
    LittleEndianReads(h.flags, 2);
    LittleEndianReads(h.seqno, 4);
    LittleEndianReads(h.pid, 4);
    LittleEndianReads(h.family, 1);
    NumberOfBytes(h.resId, 2);
    assert b[..4] == LittleEndian(len, 4) && b[4..6] == LittleEndian(h.kind, 2) && b[6..8] == LittleEndian(h.flags, 2);
    assert b[8..12] == LittleEndian(h.seqno, 4) && b[12..16] == LittleEndian(h.pid, 4);
    assert b[16..17] == LittleEndian(h.family, 1) && b[18..20] == BigEndian(h.resId, 2);
  }

  function Wire(h: Header, attrs: seq<byte>): seq<byte> {
    FixedPart(FIXED_LEN + |attrs|, h) + attrs
  }

  /** Splits a byte string into messages and each message into attributes. */
  function ParseBatch(b: seq<byte>): Option<seq<(Header, seq<Attr>)>>
    decreases |b|
  {
    if |b| == 0 then Some([])
    else if |b| < FIXED_LEN then None
    else
      var (len, h) := ReadFixed(b[..FIXED_LEN]);
      if len < FIXED_LEN || Align4(len) > |b| then None
      else
        match (ParseAll(b[FIXED_LEN..len]), ParseBatch(b[Align4(len)..]))
        case (Some(attrs), Some(rest)) => Some([(h, attrs)] + rest)
        case _ => None
  }

  /** The first message of a batch, in front of anything that parses. */
  lemma WireReads(h: Header, ts: seq<Attr>, more: seq<byte>)
    requires HeaderFits(h) && AllEncodable(ts) && |SerializeAll(ts)| <= 3000 && ParseBatch(more).Some?
    ensures ParseBatch(Wire(h, SerializeAll(ts)) + more) == Some([(h, ts)] + ParseBatch(more).value)
  {
    hide FixedPart, ReadFixed, SerializeAll, ParseAll, AllEncodable, HeaderFits;
    var body := SerializeAll(ts);
    var len := FIXED_LEN + |body|;
    var b := Wire(h, body) + more;
    FixedReads(len, h);
    ParseInverts(ts);
    SerializeAllAligned(ts);
    assert b[..FIXED_LEN] == FixedPart(len, h) && b[FIXED_LEN..len] == body && b[len..] == more;
    assert Align4(len) == len;
  }

  const NEWRULE: nat := 0x0a06
  const RULE_FLAGS: nat := 0x0c05
  const DELRULE: nat := 0x0a08
  const FLUSH_FLAGS: nat := 5
  const BATCH_BEGIN: nat := 16
  const BATCH_END: nat := 17
  const NLM_F_REQUEST: nat := 1
  const SUBSYS_NFTABLES: nat := 10

  /** g_seq and g_portid. */
  class Socket {
    const pid: nat
    var seqno: nat

    ghost predicate Valid()
      reads this
    {
      pid < TWO32 && seqno < TWO32
    }

    constructor (pid: nat)
      requires pid < TWO32
      ensures Valid() && seqno == 0 && this.pid == pid
    {
      this.pid := pid;
      seqno := 0;
    }

    /** ++g_seq, in 32 bits. */
    method NextSeq() returns (n: nat)
      requires Valid()
      modifies this`seqno
      ensures Valid() && n == seqno == (old(seqno) + 1) % TWO32
    {
      seqno := (seqno + 1) % TWO32;
      n := seqno;
    }

    /** msg_start and msg_set around a finished message, and nl_talk_wrapped: what goes out parses back
        to three messages, the middle one holding exactly the attributes that were written; it is a
        multiple of four bytes long and fits the batch buffer. */
    method Wrap(kind: nat, flags: nat, family: nat, msg: Message, ghost attrs: seq<Attr>) returns (batch: seq<byte>)
      requires Valid() && kind < 0x1_0000 && flags < 0x1_0000 && family < 256
      requires msg.Valid() && msg.draft == Root(attrs) && AllEncodable(attrs) && |SerializeAll(attrs)| <= 3000
      modifies this`seqno
      ensures Valid() && |batch| <= 4096 && |batch| % 4 == 0
      ensures var n := old(seqno);
              ParseBatch(batch) == Some([
                (Header(BATCH_BEGIN, NLM_F_REQUEST, (n + 2) % TWO32, pid, 0, SUBSYS_NFTABLES), []),
                (Header(kind, flags, (n + 1) % TWO32, pid, family, 0), attrs),
                (Header(BATCH_END, NLM_F_REQUEST, (n + 3) % TWO32, pid, 0, SUBSYS_NFTABLES), [])])
    {
      hide SerializeAll, ParseBatch, FixedPart, AllEncodable;
      var s1 := NextSeq();
      SerializeAllAligned(attrs);
      var body := msg.buf[..msg.len][FIXED_LEN..];
      var rule := Header(kind, flags, s1, pid, family, 0);
      var s2 := NextSeq();
      var begin := Header(BATCH_BEGIN, NLM_F_REQUEST, s2, pid, 0, SUBSYS_NFTABLES);
      var s3 := NextSeq();
      var end := Header(BATCH_END, NLM_F_REQUEST, s3, pid, 0, SUBSYS_NFTABLES);
      batch := Wire(begin, []) + (Wire(rule, body) + Wire(end, []));
      BatchReads(begin, rule, end, attrs);
    }
  }

  lemma BatchReads(begin: Header, rule: Header, end: Header, attrs: seq<Attr>)
    requires HeaderFits(begin) && HeaderFits(rule) && HeaderFits(end)
    requires AllEncodable(attrs) && |SerializeAll(attrs)| <= 3000
    ensures ParseBatch(Wire(begin, []) + (Wire(rule, SerializeAll(attrs)) + Wire(end, [])))
         == Some([(begin, []), (rule, attrs), (end, [])])
  {
    hide Wire, HeaderFits, ParseBatch, SerializeAll, AllEncodable;
    NoAttrs();
    WireReads(end, [], []);
    assert Wire(end, []) + [] == Wire(end, []);
    WireReads(rule, attrs, Wire(end, []));
    WireReads(begin, [], Wire(rule, SerializeAll(attrs)) + Wire(end, []));
    ThreeMessages((begin, []), (rule, attrs), (end, []));
  }

  lemma ThreeMessages(a: (Header, seq<Attr>), b: (Header, seq<Attr>), c: (Header, seq<Attr>))
    ensures [a] + ([b] + ([c] + [])) == [a, b, c]
  {
  }

  lemma NoAttrs()
    ensures SerializeAll([]) == [] && AllEncodable([]) && ParseBatch([]) == Some([])
  {
  }
}
