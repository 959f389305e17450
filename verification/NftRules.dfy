/** The rules src/netlink.c installs: register programs, their attribute trees, and the batches
    that carry them. */
module NftRules {
  import opened Bytes
  import opened Addr
  import opened Radix
  import opened Nlattr

  // Numbers of linux/netfilter/nf_tables.h.
  const REG_VERDICT: nat := 0
  const REG32_00: nat := 8
  const META_IIFNAME: nat := 6
  const META_L4PROTO: nat := 16
  const CT_STATE: nat := 0
  const NETWORK_HEADER: nat := 1
  const TRANSPORT_HEADER: nat := 2
  const CMP_EQ: nat := 0
  const CMP_NEQ: nat := 1
  const NF_DROP: nat := 0
  const NF_ACCEPT: nat := 1
  const NFT_JUMP: nat := 0xffff_fffd

  /** The expressions the builders emit. */
  datatype Instr =
    | Immediate(code: nat)
    | Jump(chain: seq<byte>)
    | Payload(base: nat, offset: nat, len: nat, dreg: nat)
    | Cmp(sreg: nat, op: nat, data: seq<byte>)
    | Meta(key: nat, dreg: nat)
    | Ct(key: nat, dreg: nat)
    | Bitwise(sreg: nat, dreg: nat, len: nat, mask: seq<byte>, xor: seq<byte>)

  function Ascii(s: string): (b: seq<byte>)
    ensures |b| == |s|
  {
    seq(|s|, i requires 0 <= i < |s| => ByteOf(s[i] as nat % 256))
  }

  /** put_str */
  function Str(kind: nat, s: seq<byte>): Attr { Leaf(kind, s + [0]) }

  /** put_be32 */
  function Be32(kind: nat, v: nat): Attr { Leaf(kind, BigEndian(v, 4)) }

  /** What all add_expr_* builders share: an element with the expression's name and its data. */
  function Expr(name: string, fields: seq<Attr>): Attr {
    Nest(1, [Str(1, Ascii(name)), Nest(2, fields)])
  }

  /** The name and the data attributes each builder writes, in its order. */
  function NameOf(i: Instr): string {
    match i
    case Immediate(_) => "immediate"
    case Jump(_) => "immediate"
    case Payload(_, _, _, _) => "payload"
    case Cmp(_, _, _) => "cmp"
    case Meta(_, _) => "meta"
    case Ct(_, _) => "ct"
    case Bitwise(_, _, _, _, _) => "bitwise"
  }

  function FieldsOf(i: Instr): seq<Attr> {
    match i
    case Immediate(code) => [Be32(1, REG_VERDICT), Nest(2, [Nest(2, [Be32(1, code)])])]
    case Jump(chain) => [Be32(1, REG_VERDICT), Nest(2, [Nest(2, [Be32(1, NFT_JUMP), Str(2, chain)])])]
    case Payload(base, offset, len, dreg) => [Be32(1, dreg), Be32(2, base), Be32(3, offset), Be32(4, len)]
    case Cmp(sreg, op, data) => [Be32(1, sreg), Be32(2, op), Nest(3, [Leaf(1, data)])]
    case Meta(key, dreg) => [Be32(1, dreg), Be32(2, key)]
    case Ct(key, dreg) => [Be32(1, dreg), Be32(2, key)]
    case Bitwise(sreg, dreg, len, mask, xor) =>
      [Be32(1, sreg), Be32(2, dreg), Be32(3, len), Be32(6, 0), Nest(4, [Leaf(1, mask)]), Nest(5, [Leaf(1, xor)])]
  }

  function TreeOf(i: Instr): Attr { Expr(NameOf(i), FieldsOf(i)) }

  // ---- the rules ----------------------------------------------------------------------------

  type Program = seq<Instr>

  /** maybe_add_iifname: NULL and the empty name add nothing. */
  function IifMatch(iface: Option<seq<byte>>): Program {
    if iface.Some? && iface.value != []
    then [Meta(META_IIFNAME, REG32_00), Cmp(REG32_00, CMP_EQ, iface.value + [0])] else []
  }

  /** netlink_add_established_rule */
  function EstablishedRule(iface: Option<seq<byte>>): Program {
    IifMatch(iface) + [Ct(CT_STATE, REG32_00), Bitwise(REG32_00, REG32_00, 4, [6, 0, 0, 0], [0, 0, 0, 0]),
                       Cmp(REG32_00, CMP_NEQ, [0, 0, 0, 0]), Immediate(NF_ACCEPT)]
  }

  const ALLOWED_NAME: string := "allowed_ips"
  const CHAIN_NAME: string := "input"
  const TABLE_NAME: string := "totpgate"

  /** netlink_add_jump_allowed */
  function JumpRule(): Program { [Jump(Ascii(ALLOWED_NAME))] }

  /** Load two transport-header bytes at offset 2 and compare them with the port. */
  function PortMatch(port: nat): Program {
    [Payload(TRANSPORT_HEADER, 2, 2, REG32_00), Cmp(REG32_00, CMP_EQ, BigEndian(port, 2))]
  }

  /** add_drop_family */
  function DropRule(port: nat, iface: Option<seq<byte>>): Program {
    IifMatch(iface) + [Meta(META_L4PROTO, REG32_00), Cmp(REG32_00, CMP_EQ, [6])]
    + PortMatch(port) + [Immediate(NF_DROP)]
  }

  /** Load the source address and compare it. */
  function SourceMatch(addr: SockAddr): Program {
    match addr
    case V4(a, _) => [Payload(NETWORK_HEADER, 12, 4, REG32_00), Cmp(REG32_00, CMP_EQ, a)]
    case V6(a, _) => [Payload(NETWORK_HEADER, 8, 16, REG32_00), Cmp(REG32_00, CMP_EQ, a)]
  }

  /** netlink_rule_insert */
  function AllowRule(addr: SockAddr, port: nat, iface: Option<seq<byte>>): Program {
    IifMatch(iface) + SourceMatch(addr) + PortMatch(port) + [Immediate(NF_ACCEPT)]
  }

  // ---- reading a tree back --------------------------------------------------------------------

  /** The number in a four-byte attribute of the given type. */
  function ReadBe32(a: Attr, kind: nat): Option<nat> {
    if a.Leaf? && a.kind == kind && |a.payload| == 4 then Some(Number(a.payload)) else None
  }

  /** The string, without its terminator, in an attribute of the given type. */
  function ReadStr(a: Attr, kind: nat): Option<seq<byte>> {
    if a.Leaf? && a.kind == kind && |a.payload| > 0 && a.payload[|a.payload| - 1] == 0
    then Some(a.payload[..|a.payload| - 1]) else None
  }

  /** The bytes inside a nested data attribute. */
  function ReadData(a: Attr, kind: nat): Option<seq<byte>> {
    if a.Nest? && a.kind == kind && |a.kids| == 1 && a.kids[0].Leaf? && a.kids[0].kind == 1
    then Some(a.kids[0].payload) else None
  }

  /** The verdict inside an immediate's data. */
  function ReadVerdict(a: Attr): Option<Instr> {
    if a.Nest? && a.kind == 2 && |a.kids| == 1 && a.kids[0].Nest? && a.kids[0].kind == 2 then
      var v := a.kids[0].kids;
      if |v| == 1 then (match ReadBe32(v[0], 1) case Some(c) => Some(Immediate(c)) case None => None)
      else if |v| == 2 && ReadBe32(v[0], 1) == Some(0xffff_fffd) then
        (match ReadStr(v[1], 2) case Some(s) => Some(Jump(s)) case None => None)
      else None
    else None
  }

  /** All fields present? */
  function All2(a: Option<nat>, b: Option<nat>): bool { a.Some? && b.Some? }

  /** Name and data of an expression. */
  function ReadExpr(a: Attr): Option<(seq<byte>, seq<Attr>)> {
    if a.Nest? && a.kind == 1 && |a.kids| == 2 && ReadStr(a.kids[0], 1).Some? && a.kids[1].Nest? && a.kids[1].kind == 2
    then Some((ReadStr(a.kids[0], 1).value, a.kids[1].kids)) else None
  }

  function ReadFields(name: seq<byte>, f: seq<Attr>): Option<Instr> {
    if name == Ascii("immediate") && |f| == 2 && ReadBe32(f[0], 1) == Some(0) then ReadVerdict(f[1])
    else if name == Ascii("payload") && |f| == 4 && All2(ReadBe32(f[0], 1), ReadBe32(f[1], 2))
            && All2(ReadBe32(f[2], 3), ReadBe32(f[3], 4)) then
      Some(Payload(ReadBe32(f[1], 2).value, ReadBe32(f[2], 3).value, ReadBe32(f[3], 4).value, ReadBe32(f[0], 1).value))
    else if name == Ascii("cmp") && |f| == 3 && All2(ReadBe32(f[0], 1), ReadBe32(f[1], 2))
            && ReadData(f[2], 3).Some? then
      Some(Cmp(ReadBe32(f[0], 1).value, ReadBe32(f[1], 2).value, ReadData(f[2], 3).value))
    else if name == Ascii("meta") && |f| == 2 && All2(ReadBe32(f[0], 1), ReadBe32(f[1], 2)) then
      Some(Meta(ReadBe32(f[1], 2).value, ReadBe32(f[0], 1).value))
    else if name == Ascii("ct") && |f| == 2 && All2(ReadBe32(f[0], 1), ReadBe32(f[1], 2)) then
      Some(Ct(ReadBe32(f[1], 2).value, ReadBe32(f[0], 1).value))
    else if name == Ascii("bitwise") && |f| == 6 && All2(ReadBe32(f[0], 1), ReadBe32(f[1], 2))
            && All2(ReadBe32(f[2], 3), ReadBe32(f[3], 6))
            && ReadBe32(f[3], 6) == Some(0) && ReadData(f[4], 4).Some? && ReadData(f[5], 5).Some? then
      Some(Bitwise(ReadBe32(f[0], 1).value, ReadBe32(f[1], 2).value, ReadBe32(f[2], 3).value,
                   ReadData(f[4], 4).value, ReadData(f[5], 5).value))
    else None
  }

  function InstrOf(a: Attr): Option<Instr> {
    match ReadExpr(a)
    case None => None
    case Some((name, fields)) => ReadFields(name, fields)
  }

  /** Every number of the instruction fits its 32-bit field. */
  ghost predicate Fits32(i: Instr) {
    match i
    case Immediate(code) => code < TWO32
    case Jump(_) => true
    case Payload(base, offset, len, dreg) => base < TWO32 && offset < TWO32 && len < TWO32 && dreg < TWO32
    case Cmp(sreg, op, _) => sreg < TWO32 && op < TWO32
    case Meta(key, dreg) => key < TWO32 && dreg < TWO32
    case Ct(key, dreg) => key < TWO32 && dreg < TWO32
    case Bitwise(sreg, dreg, len, _, _) => sreg < TWO32 && dreg < TWO32 && len < TWO32
  }

  lemma Be32Reads(kind: nat, v: nat)
    requires v < TWO32
    ensures ReadBe32(Be32(kind, v), kind) == Some(v)
  {
    assert Pow256(4) == TWO32;
    NumberOfBytes(v, 4);
  }

  lemma StrReads(kind: nat, s: seq<byte>)
    ensures ReadStr(Str(kind, s), kind) == Some(s)
  {
  }

  /** Expression names are told apart. */
  lemma NamesDiffer()
    ensures |Ascii("immediate")| == 9 && |Ascii("payload")| == 7 && |Ascii("cmp")| == 3
    ensures |Ascii("meta")| == 4 && |Ascii("ct")| == 2 && |Ascii("bitwise")| == 7
    ensures Ascii("payload") != Ascii("bitwise")
  {
    hide ByteOf;
    assert Ascii("payload")[0] as nat == 'p' as nat && Ascii("bitwise")[0] as nat == 'b' as nat;
  }

  lemma ExprReads(name: string, fields: seq<Attr>)
    ensures ReadExpr(Expr(name, fields)) == Some((Ascii(name), fields))
  {
    hide Ascii;
    StrReads(1, Ascii(name));
  }

  /** The attribute tree of an instruction stands for that instruction and no other. */
  lemma InstrReads(i: Instr)
    requires Fits32(i)
    ensures InstrOf(TreeOf(i)) == Some(i)
  {
    hide Expr, ReadExpr, ReadFields, FieldsOf, NameOf;
    ExprReads(NameOf(i), FieldsOf(i));
    FieldsRead(i);
  }

  lemma FieldsRead(i: Instr)
    requires Fits32(i)
    ensures ReadFields(Ascii(NameOf(i)), FieldsOf(i)) == Some(i)
  {
    hide Ascii, Be32, ReadBe32, Str, ReadStr;
    NamesDiffer();
    match i
    case Immediate(code) =>
      Be32Reads(1, REG_VERDICT);
      Be32Reads(1, code);
    case Jump(chain) =>
      Be32Reads(1, REG_VERDICT);
      Be32Reads(1, NFT_JUMP);
      StrReads(2, chain);
    case Payload(base, offset, len, dreg) =>
      Be32Reads(1, dreg);
      Be32Reads(2, base);
      Be32Reads(3, offset);
      Be32Reads(4, len);
    case Cmp(sreg, op, data) =>
      Be32Reads(1, sreg);
      Be32Reads(2, op);
    case Meta(key, dreg) =>
      Be32Reads(1, dreg);
      Be32Reads(2, key);
    case Ct(key, dreg) =>
      Be32Reads(1, dreg);
      Be32Reads(2, key);
    case Bitwise(sreg, dreg, len, mask, xor) =>
      Be32Reads(1, sreg);
      Be32Reads(2, dreg);
      Be32Reads(3, len);
      Be32Reads(6, 0);
  }

  // ---- sizes --------------------------------------------------------------------------------

  ghost predicate Small(a: Attr, bound: nat) { Encodable(a) && |Serialize(a)| <= bound }

  lemma LeafSmall(kind: nat, payload: seq<byte>)
    requires kind < 0x4000 && |payload| <= 17
    ensures Small(Leaf(kind, payload), 24)
  {
    hide LittleEndian;
  }

  function Product(n: nat, bound: nat): nat { n * bound }

  lemma {:induction false} AllSmall(ts: seq<Attr>, bound: nat)
    requires forall t :: t in ts ==> Small(t, bound)
    ensures AllEncodable(ts) && |SerializeAll(ts)| <= Product(|ts|, bound)
  {
    hide Serialize, Encodable;
    if |ts| > 0 {
      assert ts[0] in ts && forall t :: t in ts[1..] ==> t in ts;
      AllSmall(ts[1..], bound);
      OneMore(|ts|, bound);
    }
  }

  lemma OneMore(n: nat, bound: nat)
    requires n > 0
    ensures Product(n, bound) == bound + Product(n - 1, bound)
  {
  }

  lemma NestSmall(kind: nat, kids: seq<Attr>, bound: nat)
    requires kind < 0x4000 && (forall t :: t in kids ==> Small(t, bound)) && Product(|kids|, bound) < 0x8000
    ensures Small(Nest(kind, kids), 4 + Product(|kids|, bound))
  {
    hide LittleEndian, SerializeAll, Product;
    AllSmall(kids, bound);
  }

  lemma Wider(a: Attr, small: nat, large: nat)
    requires Small(a, small) && small <= large
    ensures Small(a, large)
  {
    hide Encodable, Serialize;
  }

  /** The byte strings in an instruction are at most an address or an interface name long. */
  ghost predicate Modest(i: Instr) {
    match i
    case Jump(chain) => |chain| <= 16
    case Cmp(_, _, data) => |data| <= 16
    case Bitwise(_, _, _, mask, xor) => |mask| <= 16 && |xor| <= 16
    case _ => true
  }

  const INSTR_BOUND: nat := 368

  lemma FieldSmall(i: Instr, f: Attr)
    requires Modest(i) && f in FieldsOf(i)
    ensures Small(f, 56)
  {
    hide Small, BigEndian;
    if f.Leaf? {
      LeafSmall(f.kind, f.payload);
      Wider(f, 24, 56);
    } else if f.kids[0].Leaf? {
      LeafSmall(f.kids[0].kind, f.kids[0].payload);
      NestSmall(f.kind, f.kids, 24);
      Wider(f, 28, 56);
    } else {
      var inner := f.kids[0];
      forall t | t in inner.kids
        ensures Small(t, 24)
      {
        LeafSmall(t.kind, t.payload);
      }
      NestSmall(inner.kind, inner.kids, 24);
      Wider(inner, 4 + |inner.kids| * 24, 52);
      NestSmall(f.kind, f.kids, 52);
    }
  }

  lemma InstrSmall(i: Instr)
    requires Modest(i)
    ensures Small(TreeOf(i), INSTR_BOUND)
  {
    hide Small, FieldsOf, Ascii, Str;
    FieldCount(i);
    forall f | f in FieldsOf(i)
      ensures Small(f, 56)
    {
      FieldSmall(i, f);
    }
    NestSmall(2, FieldsOf(i), 56);
    NameSmall(i);
    var name, data := Str(1, Ascii(NameOf(i))), Nest(2, FieldsOf(i));
    Wider(data, 4 + |FieldsOf(i)| * 56, 340);
    PairSmall(1, name, data, 24, 340);
  }

  lemma PairSmall(kind: nat, a: Attr, b: Attr, boundA: nat, boundB: nat)
    requires kind < 0x4000 && Small(a, boundA) && Small(b, boundB) && boundA + boundB < 0x8000
    ensures Small(Nest(kind, [a, b]), 4 + boundA + boundB)
  {
    hide LittleEndian;
    assert [a, b][1..] == [b] && [b][1..] == [];
    assert SerializeAll([b]) == Serialize(b) + SerializeAll([]);
    assert SerializeAll([a, b]) == Serialize(a) + SerializeAll([b]);
    assert AllEncodable([b]) && AllEncodable([a, b]);
  }

  lemma FieldCount(i: Instr)
    ensures 2 <= |FieldsOf(i)| <= 6
  {
  }

  lemma NameSmall(i: Instr)
    ensures Small(Str(1, Ascii(NameOf(i))), 24)
  {
    hide Small;
    LeafSmall(1, Ascii(NameOf(i)) + [0]);
  }

  // ---- rules as attributes --------------------------------------------------------------------------------

  function Trees(prog: Program): (ts: seq<Attr>)
    ensures |ts| == |prog| && forall i :: 0 <= i < |ts| ==> ts[i] == TreeOf(prog[i])
  {
    seq(|prog|, i requires 0 <= i < |prog| => TreeOf(prog[i]))
  }

  function RuleAttrs(chain: string, prog: Program): seq<Attr> {
    [Str(1, Ascii(TABLE_NAME)), Str(2, Ascii(chain)), Nest(4, Trees(prog))]
  }

  function ReadProgram(ts: seq<Attr>): Option<Program> {
    if |ts| == 0 then Some([])
    else
      match (InstrOf(ts[0]), ReadProgram(ts[1..]))
      case (Some(i), Some(rest)) => Some([i] + rest)
      case _ => None
  }

  /** Table, chain and program of a rule message. */
  function ReadRule(attrs: seq<Attr>): Option<(seq<byte>, seq<byte>, Program)> {
    if |attrs| == 3 && ReadStr(attrs[0], 1).Some? && ReadStr(attrs[1], 2).Some? && attrs[2].Nest? && attrs[2].kind == 4
       && ReadProgram(attrs[2].kids).Some?
    then Some((ReadStr(attrs[0], 1).value, ReadStr(attrs[1], 2).value, ReadProgram(attrs[2].kids).value)) else None
  }

  /** The attributes of a message that names a chain and no rule. */
  function FlushAttrs(chain: string): seq<Attr> { [Str(1, Ascii(TABLE_NAME)), Str(2, Ascii(chain))] }

  /** Table and chain of such a message. */
  function ReadFlush(attrs: seq<Attr>): Option<(seq<byte>, seq<byte>)> {
    if |attrs| == 2 && ReadStr(attrs[0], 1).Some? && ReadStr(attrs[1], 2).Some?
    then Some((ReadStr(attrs[0], 1).value, ReadStr(attrs[1], 2).value)) else None
  }

  lemma FlushReads(chain: string)
    ensures ReadFlush(FlushAttrs(chain)) == Some((Ascii(TABLE_NAME), Ascii(chain)))
  {
    hide Ascii, Str, ReadStr;
    StrReads(1, Ascii(TABLE_NAME));
    StrReads(2, Ascii(chain));
  }

  lemma FlushSmall(chain: string)
    requires |chain| <= 16
    ensures AllEncodable(FlushAttrs(chain)) && |SerializeAll(FlushAttrs(chain))| <= 48
  {
    hide Ascii, Serialize, Encodable;
    LeafSmall(1, Ascii(TABLE_NAME) + [0]);
    LeafSmall(2, Ascii(chain) + [0]);
    AllSmall(FlushAttrs(chain), 24);
  }

  ghost predicate Sound(prog: Program) {
    && |prog| <= 8
    && forall i :: 0 <= i < |prog| ==> Fits32(prog[i]) && Modest(prog[i]) && (prog[i].Ct? ==> prog[i].key == CT_STATE)
  }

  lemma {:induction false} ProgramReads(prog: Program)
    requires forall i :: 0 <= i < |prog| ==> Fits32(prog[i])
    ensures ReadProgram(Trees(prog)) == Some(prog)
  {
    hide InstrOf, TreeOf, Fits32;
    if |prog| > 0 {
      InstrReads(prog[0]);
      ProgramReads(prog[1..]);
      assert Trees(prog)[1..] == Trees(prog[1..]);
      assert [prog[0]] + prog[1..] == prog;
    }
  }

  /** A rule's attributes name its table, its chain and exactly its program. */
  lemma RuleReads(chain: string, prog: Program)
    requires Sound(prog)
    ensures ReadRule(RuleAttrs(chain, prog)) == Some((Ascii(TABLE_NAME), Ascii(chain), prog))
  {
    hide Ascii, Str, ReadStr, Trees, ReadProgram, Modest, Fits32;
    StrReads(1, Ascii(TABLE_NAME));
    StrReads(2, Ascii(chain));
    ProgramReads(prog);
  }

  /** Every rule has exact 16-bit lengths and leaves room in the buffer. */
  lemma RuleSmall(chain: string, prog: Program)
    requires Sound(prog) && |chain| <= 16
    ensures AllEncodable(RuleAttrs(chain, prog)) && |SerializeAll(RuleAttrs(chain, prog))| <= 3000
  {
    hide Ascii, TreeOf, Small, Modest, Fits32;
    var table, name, exprs := Str(1, Ascii(TABLE_NAME)), Str(2, Ascii(chain)), Nest(4, Trees(prog));
    LeafSmall(1, Ascii(TABLE_NAME) + [0]);
    LeafSmall(2, Ascii(chain) + [0]);
    forall t | t in Trees(prog)
      ensures Small(t, INSTR_BOUND)
    {
      var i :| 0 <= i < |prog| && t == TreeOf(prog[i]);
      InstrSmall(prog[i]);
    }
    NestSmall(4, Trees(prog), INSTR_BOUND);
    Wider(exprs, 4 + |prog| * INSTR_BOUND, 2948);
    ThreeSmall(table, name, exprs);
  }

  lemma ThreeSmall(a: Attr, b: Attr, c: Attr)
    requires Small(a, 24) && Small(b, 24) && Small(c, 2948)
    ensures AllEncodable([a, b, c]) && |SerializeAll([a, b, c])| <= 3000
  {
    hide Serialize, Encodable;
    assert [a, b, c][1..] == [b, c] && [b, c][1..] == [c] && [c][1..] == [];
    assert SerializeAll([c]) == Serialize(c) + SerializeAll([]);
    assert SerializeAll([b, c]) == Serialize(b) + SerializeAll([c]);
    assert AllEncodable([c]) && AllEncodable([b, c]);
  }
}
