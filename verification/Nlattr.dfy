/** Netlink attributes (section 2.2 of RFC 3549): the attribute tree, its wire form, a parser as
    the specification, and the in-place writers of src/netlink.c. */
module Nlattr {
  import opened Bytes

  const NLA_F_NESTED: nat := 0x8000

  datatype Attr = Leaf(kind: nat, payload: seq<byte>) | Nest(kind: nat, kids: seq<Attr>)

  /** NLA_ALIGN and NLMSG_ALIGN. */
  function Align4(n: nat): (a: nat)
    ensures n <= a < n + 4 && a % 4 == 0
  {
    (n + 3) / 4 * 4
  }

  // ---- little-endian fields -----------------------------------------------------------------

  /** A field of k bytes in the byte order of the host. */
  function LittleEndian(n: nat, k: nat): (b: seq<byte>)
    ensures |b| == k
  {
    if k == 0 then [] else [ByteOf(n % 256)] + LittleEndian(n / 256, k - 1)
  }

  function FromLittleEndian(b: seq<byte>): nat {
    if |b| == 0 then 0 else b[0] as nat + 256 * FromLittleEndian(b[1..])
  }

  lemma {:induction false} LittleEndianReads(n: nat, k: nat)
    requires n < Pow256(k)
    ensures FromLittleEndian(LittleEndian(n, k)) == n
  {
    if k > 0 {
      LittleEndianReads(n / 256, k - 1);
    }
  }

  // ---- the wire form ------------------------------------------------------------------------

  /** A header, the payload, and zero bytes up to the next multiple of four; a nested attribute's
      payload is its children one after the other. */
  function Serialize(a: Attr): (b: seq<byte>)
    decreases a, 1
  {
    match a
    case Leaf(kind, payload) =>
      var len := 4 + |payload|;
      LittleEndian(len, 2) + LittleEndian(kind, 2) + payload + Zeros(Align4(len) - len)
    case Nest(kind, kids) =>
      var body := SerializeAll(kids);
      LittleEndian(4 + |body|, 2) + LittleEndian(kind + NLA_F_NESTED, 2) + body
  }

  function SerializeAll(ts: seq<Attr>): (b: seq<byte>)
    decreases ts, 0
  {
    if |ts| == 0 then [] else Serialize(ts[0]) + SerializeAll(ts[1..])
  }

  /** Types leave the two flag bits free and every length fits its 16-bit field. */
  ghost predicate Encodable(a: Attr)
    decreases a, 1
  {
    && a.kind < 0x4000
    && match a
       case Leaf(_, payload) => 4 + |payload| < 0x1_0000
       case Nest(_, kids) => 4 + |SerializeAll(kids)| < 0x1_0000 && AllEncodable(kids)
  }

  ghost predicate AllEncodable(ts: seq<Attr>)
    decreases ts, 0
  {
    if |ts| == 0 then true else Encodable(ts[0]) && AllEncodable(ts[1..])
  }

  lemma {:induction false} SerializeAligned(a: Attr)
    ensures |Serialize(a)| % 4 == 0 && |Serialize(a)| >= 4
    decreases a, 1
  {
    hide LittleEndian, Zeros, SerializeAll;
    if a.Nest? {
      SerializeAllAligned(a.kids);
    }
  }

  lemma {:induction false} SerializeAllAligned(ts: seq<Attr>)
    ensures |SerializeAll(ts)| % 4 == 0
    decreases ts, 0
  {
    hide Serialize;
    if |ts| > 0 {
      SerializeAligned(ts[0]);
      SerializeAllAligned(ts[1..]);
    }
  }

  lemma {:induction false} SerializeAllConcat(ts: seq<Attr>, us: seq<Attr>)
    ensures SerializeAll(ts + us) == SerializeAll(ts) + SerializeAll(us)
    decreases |ts|
  {
    hide Serialize;
    if |ts| == 0 {
      assert ts + us == us;
    } else {
      SerializeAllConcat(ts[1..], us);
      assert (ts + us)[1..] == ts[1..] + us;
    }
  }

  // ---- the parser ---------------------------------------------------------------------------

  /** Splits a byte string into attributes, descending into those flagged as nested. */
  function ParseAll(b: seq<byte>): Option<seq<Attr>>
    decreases |b|
  {
    if |b| == 0 then Some([])
    else if |b| < 4 then None
    else
      var len, kind := FromLittleEndian(b[..2]), FromLittleEndian(b[2..4]);
      if len < 4 || Align4(len) > |b| then None
      else
        match ParseAll(b[Align4(len)..])
        case None => None
        case Some(rest) =>
          if kind < 0x8000 then Some([Leaf(kind, b[4..len])] + rest)
          else
            match ParseAll(b[4..len])
            case None => None
            case Some(kids) => Some([Nest(kind - 0x8000, kids)] + rest)
  }

  lemma HeaderSlices(len: seq<byte>, kind: seq<byte>, tail: seq<byte>, more: seq<byte>)
    requires |len| == 2 && |kind| == 2
    ensures var b := len + kind + tail + more; b[..2] == len && b[2..4] == kind && b[4..] == tail + more
  {
  }

  /** Header and extent of an attribute in front of anything. */
  lemma ReadsHeader(a: Attr, more: seq<byte>)
    requires Encodable(a)
    ensures var b := Serialize(a) + more;
            var len := FromLittleEndian(b[..2]);
            && |b| >= 4 && 4 <= len && Align4(len) == |Serialize(a)| && b[|Serialize(a)|..] == more
            && FromLittleEndian(b[2..4]) == a.kind + (if a.Nest? then NLA_F_NESTED else 0)
            && b[4..len] == if a.Leaf? then a.payload else SerializeAll(a.kids)
  {
    hide SerializeAll, LittleEndian, FromLittleEndian;
    var s := Serialize(a);
    var len := 4 + if a.Leaf? then |a.payload| else |SerializeAll(a.kids)|;
    var kind := a.kind + if a.Nest? then NLA_F_NESTED else 0;
    assert Pow256(2) == 0x1_0000;
    LittleEndianReads(len, 2);
    LittleEndianReads(kind, 2);
    var tail := if a.Leaf? then a.payload + Zeros(Align4(len) - len) else SerializeAll(a.kids);
    assert s == LittleEndian(len, 2) + LittleEndian(kind, 2) + tail;
    HeaderSlices(LittleEndian(len, 2), LittleEndian(kind, 2), tail, more);
    if a.Nest? {
      SerializeAllAligned(a.kids);
    }
  }

  /** Parsing what was serialized gives back exactly the tree. */
  lemma {:induction false} ParseInverts(ts: seq<Attr>)
    requires AllEncodable(ts)
    ensures ParseAll(SerializeAll(ts)) == Some(ts)
    decreases ts
  {
    hide Serialize, FromLittleEndian;
    if |ts| > 0 {
      var a := ts[0];
      ReadsHeader(a, SerializeAll(ts[1..]));
      ParseInverts(ts[1..]);
      if a.Nest? {
        ParseInverts(a.kids);
      }
      assert [a] + ts[1..] == ts;
    }
  }

  // ---- writing in place ---------------------------------------------------------------------

  const BUF_SIZE: nat := 4096
  /** struct nlmsghdr followed by struct nfgenmsg. */
  const FIXED_LEN: nat := 20

  /** What has been written so far: finished attributes, inside the nested ones still open. */
  datatype Draft = Root(kids: seq<Attr>) | Open(kind: nat, kids: seq<Attr>, outer: Draft)

  function Add(d: Draft, a: Attr): Draft { d.(kids := d.kids + [a]) }

  /** Ending the innermost nest hands it to the one around it. */
  function Close(d: Draft): Draft
    requires d.Open?
  {
    Add(d.outer, Nest(d.kind, d.kids))
  }

  function NestHeader(len: nat, kind: nat): (h: seq<byte>)
    ensures |h| == 4
  {
    LittleEndian(len, 2) + LittleEndian(kind + NLA_F_NESTED, 2)
  }

  /** The bytes of a draft: an open nest still has length zero in its header. */
  function Rendered(d: Draft): seq<byte> {
    match d
    case Root(kids) => SerializeAll(kids)
    case Open(kind, kids, outer) => Rendered(outer) + NestHeader(0, kind) + SerializeAll(kids)
  }

  lemma RenderedAdd(d: Draft, a: Attr)
    ensures Rendered(Add(d, a)) == Rendered(d) + Serialize(a)
  {
    hide Serialize, NestHeader;
    SerializeAllConcat(d.kids, [a]);
    assert [a][1..] == [] && SerializeAll([a]) == Serialize(a) + SerializeAll([]);
  }

  lemma RenderedBegin(d: Draft, kind: nat)
    ensures Rendered(Open(kind, [], d)) == Rendered(d) + NestHeader(0, kind)
  {
    hide NestHeader;
    assert SerializeAll([]) == [];
  }

  lemma RenderedClose(d: Draft)
    requires d.Open?
    ensures var body := SerializeAll(d.kids);
            Rendered(Close(d)) == Rendered(d.outer) + NestHeader(4 + |body|, d.kind) + body
  {
    hide LittleEndian, SerializeAll;
    RenderedAdd(d.outer, Nest(d.kind, d.kids));
  }

  lemma {:induction false} RenderedAligned(d: Draft)
    ensures |Rendered(d)| % 4 == 0
  {
    hide NestHeader, SerializeAll;
    SerializeAllAligned(d.kids);
    if d.Open? {
      RenderedAligned(d.outer);
      SumAligned(|Rendered(d.outer)|, |SerializeAll(d.kids)|);
    }
  }

  lemma SumAligned(a: nat, b: nat)
    requires a % 4 == 0 && b % 4 == 0
    ensures (a + 4 + b) % 4 == 0
  {
  }

  /** Storing two length bytes at the start of a nest turns its open header into the final one. */
  lemma LengthPatched(b: seq<byte>, outer: seq<byte>, kind: nat, body: seq<byte>)
    requires |b| >= FIXED_LEN && b[FIXED_LEN..] == outer + NestHeader(0, kind) + body
    ensures var at := FIXED_LEN + |outer|;
            (b[..at] + LittleEndian(4 + |body|, 2) + b[at + 2..])[FIXED_LEN..]
              == outer + NestHeader(4 + |body|, kind) + body
  {
    hide LittleEndian;
    var head, zero, typ := b[..FIXED_LEN], LittleEndian(0, 2), LittleEndian(kind + NLA_F_NESTED, 2);
    assert b == head + (outer + (zero + typ) + body);
    Around(head, outer, zero, typ, body);
    Regrouped(head, outer, LittleEndian(4 + |body|, 2), typ, body);
  }

  lemma Around(head: seq<byte>, outer: seq<byte>, zero: seq<byte>, typ: seq<byte>, body: seq<byte>)
    ensures var b := head + (outer + (zero + typ) + body);
            b[..|head| + |outer|] == head + outer && b[|head| + |outer| + |zero|..] == typ + body
  {
    var b := head + (outer + (zero + typ) + body);
    assert b == head + outer + zero + (typ + body);
  }

  lemma Regrouped(head: seq<byte>, outer: seq<byte>, field: seq<byte>, typ: seq<byte>, body: seq<byte>)
    ensures (head + outer + field + (typ + body))[|head|..] == outer + (field + typ) + body
  {
    assert head + outer + field + (typ + body) == head + (outer + (field + typ) + body);
  }

  /** A message under construction: the zeroed stack buffer and nlmsg_len. The fixed part, which
      the attribute writers do not touch, is not kept here. */
  class Message {
    const buf: array<byte>
    var len: nat
    ghost var draft: Draft

    ghost predicate Valid()
      reads this, buf
    {
      && buf.Length == BUF_SIZE && len <= BUF_SIZE && len == FIXED_LEN + |Rendered(draft)|
      && buf[..len][FIXED_LEN..] == Rendered(draft)
    }

    constructor ()
      ensures Valid() && fresh(buf) && draft == Root([]) && len == FIXED_LEN
    {
      buf := new byte[4096](_ => 0);
      len := FIXED_LEN;
      draft := Root([]);
    }

    /** memcpy into the buffer. */
    method Copy(at: nat, data: seq<byte>)
      requires at + |data| <= buf.Length
      modifies buf
      ensures buf[at..at + |data|] == data && buf[..at] == old(buf[..at])
      ensures buf[at + |data|..] == old(buf[at + |data|..])
    {
      forall i | 0 <= i < |data| {
        buf[at + i] := data[i];
      }
    }

    /** The same at the growing end, where what lies behind does not matter. */
    method Append(at: nat, data: seq<byte>)
      requires at + |data| <= buf.Length
      modifies buf
      ensures buf[..at + |data|] == old(buf[..at]) + data
    {
      Copy(at, data);
    }

    /** A header, a payload and zero bytes, one behind the other. */
    method AppendPadded(at: nat, header: seq<byte>, data: seq<byte>, pad: nat)
      requires at + |header| + |data| + pad <= buf.Length
      modifies buf
      ensures buf[..at + |header| + |data| + pad] == old(buf[..at]) + header + data + Zeros(pad)
    {
      hide Zeros;
      Append(at, header);
      Append(at + |header|, data);
      Append(at + |header| + |data|, Zeros(pad));
    }

    /** put_attr */
    method PutAttr(kind: nat, data: seq<byte>)
      requires Valid() && 4 + |data| < 0x1_0000 && len + Align4(4 + |data|) <= BUF_SIZE
      modifies this, buf
      ensures Valid() && draft == Add(old(draft), Leaf(kind, data)) && len == old(len) + Align4(4 + |data|)
    {
      hide LittleEndian, Align4, Serialize, Zeros, Rendered;
      LeafBytes(kind, data);
      RenderedAligned(draft);
      RenderedAdd(draft, Leaf(kind, data));
      ghost var before := buf[..len];
      var total := (4 + |data|) % 0x1_0000;
      var pad := Align4(total) - total;
      var at := AlignedHere(len);
      AppendPadded(at, LittleEndian(total, 2) + LittleEndian(kind, 2), data, pad);
      len := at + Align4(total);
      Assoc(before, LittleEndian(total, 2) + LittleEndian(kind, 2), data, Zeros(pad));
      draft := Add(draft, Leaf(kind, data));
    }

    /** begin_nest: a header whose length is still open; `at` stands for the returned pointer. */
    method BeginNest(kind: nat) returns (at: nat)
      requires Valid() && len + 4 <= BUF_SIZE
      modifies this, buf
      ensures Valid() && at == old(len) && len == at + 4 && draft == Open(kind, [], old(draft))
    {
      hide LittleEndian, Rendered;
      RenderedAligned(draft);
      RenderedBegin(draft, kind);
      ghost var before := buf[..len];
      at := AlignedHere(len);
      Append(at, LittleEndian(0, 2) + LittleEndian(kind + NLA_F_NESTED, 2));
      len := at + 4;
      assert buf[..len] == before + NestHeader(0, kind);
      assert buf[..len][FIXED_LEN..] == before[FIXED_LEN..] + NestHeader(0, kind);
      draft := Open(kind, [], draft);
    }

    /** end_nest: stores the length of everything written since. */
    method EndNest(at: nat)
      requires Valid() && draft.Open? && at == FIXED_LEN + |Rendered(draft.outer)|
      modifies this, buf
      ensures Valid() && draft == Close(old(draft)) && len == old(len)
    {
      hide LittleEndian, SerializeAll, NestHeader;
      ghost var body := SerializeAll(draft.kids);
      ghost var before := buf[..len];
      var field := LittleEndian((len - at) % 0x1_0000, 2);
      Copy(at, field);
      assert buf[..len] == before[..at] + field + before[at + 2..] by {
        assert buf[..len] == buf[..at] + buf[at..at + 2] + buf[at + 2..][..len - at - 2];
      }
      LengthPatched(before, Rendered(draft.outer), draft.kind, body);
      RenderedClose(draft);
      draft := Close(draft);
    }
  }

  lemma LeafBytes(kind: nat, data: seq<byte>)
    ensures var len := 4 + |data|;
            Serialize(Leaf(kind, data))
              == LittleEndian(len, 2) + LittleEndian(kind, 2) + data + Zeros(Align4(len) - len)
  {
  }

  /** Aligning a length that is already a multiple of four. */
  function AlignedHere(len: nat): (a: nat)
    requires len % 4 == 0
    ensures a == len
  {
    Align4(len)
  }
}
