/** The add_expr_* builders of src/netlink.c and the rule builders made of them, writing in place. */
module NftBuild {
  import opened Bytes
  import opened Addr
  import opened Nlattr
  import opened NftRules

  method PutStr(m: Message, kind: nat, s: seq<byte>)
    requires m.Valid() && |s| <= 16 && m.len + 24 <= BUF_SIZE
    modifies m, m.buf
    ensures m.Valid() && m.draft == Add(old(m.draft), Str(kind, s)) && m.len <= old(m.len) + 24
  {
    m.PutAttr(kind, s + [0]);
  }

  method PutBe32(m: Message, kind: nat, v: nat)
    requires m.Valid() && m.len + 8 <= BUF_SIZE
    modifies m, m.buf
    ensures m.Valid() && m.draft == Add(old(m.draft), Be32(kind, v)) && m.len == old(m.len) + 8
  {
    m.PutAttr(kind, BigEndian(v, 4));
  }

  /** A nested attribute around one value. */
  method PutData(m: Message, kind: nat, data: seq<byte>)
    requires m.Valid() && |data| <= 16 && m.len + 24 <= BUF_SIZE
    modifies m, m.buf
    ensures m.Valid() && m.draft == Add(old(m.draft), Nest(kind, [Leaf(1, data)])) && m.len <= old(m.len) + 24
  {
    hide Rendered;
    var d := m.BeginNest(kind);
    m.PutAttr(1, data);
    assert m.draft.kids == [Leaf(1, data)];
    m.EndNest(d);
  }

  /** How every builder starts: an element, its name, its data. */
  method BeginExpr(m: Message, name: string) returns (expr: nat, data: nat)
    requires m.Valid() && |name| <= 16 && m.len + 32 <= BUF_SIZE
    modifies m, m.buf
    ensures m.Valid() && m.draft == Open(2, [], Open(1, [Str(1, Ascii(name))], old(m.draft)))
    ensures m.len <= old(m.len) + 32
    ensures data == FIXED_LEN + |Rendered(m.draft.outer)| && expr == FIXED_LEN + |Rendered(m.draft.outer.outer)|
  {
    hide Rendered, Ascii, Str;
    expr := m.BeginNest(1);
    PutStr(m, 1, Ascii(name));
    data := m.BeginNest(2);
  }

  /** And how it ends. */
  method EndExpr(m: Message, name: string, expr: nat, data: nat)
    requires m.Valid() && m.draft.Open? && m.draft.kind == 2 && m.draft.outer.Open?
    requires m.draft.outer.kind == 1 && m.draft.outer.kids == [Str(1, Ascii(name))]
    requires data == FIXED_LEN + |Rendered(m.draft.outer)| && expr == FIXED_LEN + |Rendered(m.draft.outer.outer)|
    modifies m, m.buf
    ensures m.Valid() && m.draft == Add(old(m.draft.outer.outer), Expr(name, old(m.draft.kids))) && m.len == old(m.len)
  {
    hide Rendered, Ascii, Str;
    m.EndNest(data);
    assert m.draft.kids == [Str(1, Ascii(name)), Nest(2, old(m.draft.kids))];
    m.EndNest(expr);
  }

  method AddImmediateVerdict(m: Message, verdict: nat)
    requires m.Valid() && m.len + 64 <= BUF_SIZE
    modifies m, m.buf
    ensures m.Valid() && m.draft == Add(old(m.draft), TreeOf(Immediate(verdict))) && m.len <= old(m.len) + 64
  {
    hide Rendered, Ascii, Be32;
    var expr, data := BeginExpr(m, "immediate");
    PutBe32(m, 1, REG_VERDICT);
    var vd := m.BeginNest(2);
    var vd2 := m.BeginNest(2);
    PutBe32(m, 1, verdict);
    assert m.draft.kids == [Be32(1, verdict)];
    m.EndNest(vd2);
    assert m.draft.kids == [Nest(2, [Be32(1, verdict)])];
    m.EndNest(vd);
    assert m.draft.kids == FieldsOf(Immediate(verdict));
    EndExpr(m, "immediate", expr, data);
  }

  method AddImmediateVerdictChain(m: Message, chain: seq<byte>)
    requires m.Valid() && |chain| <= 16 && m.len + 88 <= BUF_SIZE
    modifies m, m.buf
    ensures m.Valid() && m.draft == Add(old(m.draft), TreeOf(Jump(chain))) && m.len <= old(m.len) + 88
  {
    hide Rendered, Ascii, Be32, Str;
    var expr, data := BeginExpr(m, "immediate");
    PutBe32(m, 1, REG_VERDICT);
    var vd := m.BeginNest(2);
    var vd2 := m.BeginNest(2);
    PutBe32(m, 1, NFT_JUMP);
    PutStr(m, 2, chain);
    assert m.draft.kids == [Be32(1, NFT_JUMP), Str(2, chain)];
    m.EndNest(vd2);
    assert m.draft.kids == [Nest(2, [Be32(1, NFT_JUMP), Str(2, chain)])];
    m.EndNest(vd);
    assert m.draft.kids == FieldsOf(Jump(chain));
    EndExpr(m, "immediate", expr, data);
  }

  method AddPayloadLoad(m: Message, base: nat, offset: nat, len: nat, dreg: nat)
    requires m.Valid() && m.len + 64 <= BUF_SIZE
    modifies m, m.buf
    ensures m.Valid() && m.draft == Add(old(m.draft), TreeOf(Payload(base, offset, len, dreg)))
    ensures m.len <= old(m.len) + 64
  {
    hide Rendered, Ascii, Be32;
    var expr, data := BeginExpr(m, "payload");
    PutBe32(m, 1, dreg);
    PutBe32(m, 2, base);
    PutBe32(m, 3, offset);
    PutBe32(m, 4, len);
    assert m.draft.kids == FieldsOf(Payload(base, offset, len, dreg));
    EndExpr(m, "payload", expr, data);
  }

  method AddCmp(m: Message, sreg: nat, op: nat, value: seq<byte>)
    requires m.Valid() && |value| <= 16 && m.len + 72 <= BUF_SIZE
    modifies m, m.buf
    ensures m.Valid() && m.draft == Add(old(m.draft), TreeOf(Cmp(sreg, op, value))) && m.len <= old(m.len) + 72
  {
    hide Rendered, Ascii, Be32;
    var expr, data := BeginExpr(m, "cmp");
    PutBe32(m, 1, sreg);
    PutBe32(m, 2, op);
    PutData(m, 3, value);
    assert m.draft.kids == FieldsOf(Cmp(sreg, op, value));
    EndExpr(m, "cmp", expr, data);
  }

  /** add_expr_meta_l4proto and add_expr_meta_iifname */
  method AddMeta(m: Message, key: nat, dreg: nat)
    requires m.Valid() && m.len + 48 <= BUF_SIZE
    modifies m, m.buf
    ensures m.Valid() && m.draft == Add(old(m.draft), TreeOf(Meta(key, dreg))) && m.len <= old(m.len) + 48
  {
    hide Rendered, Ascii, Be32;
    var expr, data := BeginExpr(m, "meta");
    PutBe32(m, 1, dreg);
    PutBe32(m, 2, key);
    assert m.draft.kids == FieldsOf(Meta(key, dreg));
    EndExpr(m, "meta", expr, data);
  }

  method AddCtState(m: Message, dreg: nat)
    requires m.Valid() && m.len + 48 <= BUF_SIZE
    modifies m, m.buf
    ensures m.Valid() && m.draft == Add(old(m.draft), TreeOf(Ct(CT_STATE, dreg))) && m.len <= old(m.len) + 48
  {
    hide Rendered, Ascii, Be32;
    var expr, data := BeginExpr(m, "ct");
    PutBe32(m, 1, dreg);
    PutBe32(m, 2, CT_STATE);
    assert m.draft.kids == FieldsOf(Ct(CT_STATE, dreg));
    EndExpr(m, "ct", expr, data);
  }

  method AddBitwise(m: Message, sreg: nat, dreg: nat, len: nat, mask: seq<byte>, xor: seq<byte>)
    requires m.Valid() && |mask| <= 16 && |xor| <= 16 && m.len + 112 <= BUF_SIZE
    modifies m, m.buf
    ensures m.Valid() && m.draft == Add(old(m.draft), TreeOf(Bitwise(sreg, dreg, len, mask, xor)))
    ensures m.len <= old(m.len) + 112
  {
    hide Rendered, Ascii, Be32;
    var expr, data := BeginExpr(m, "bitwise");
    PutBe32(m, 1, sreg);
    PutBe32(m, 2, dreg);
    PutBe32(m, 3, len);
    PutBe32(m, 6, 0);
    PutData(m, 4, mask);
    PutData(m, 5, xor);
    assert m.draft.kids == FieldsOf(Bitwise(sreg, dreg, len, mask, xor));
    EndExpr(m, "bitwise", expr, data);
  }

  // ---- rules --------------------------------------------------------------------------------

  /** The attributes in front of a rule's expressions. */
  function RuleHead(chain: string): Draft { Root([Str(1, Ascii(TABLE_NAME)), Str(2, Ascii(chain))]) }

  /** A draft inside NFTA_RULE_EXPRESSIONS of a rule for `chain`, with `prog` written so far. */
  function InRule(chain: string, prog: Program): Draft { Open(4, Trees(prog), RuleHead(chain)) }

  lemma InRuleAdd(chain: string, prog: Program, i: Instr)
    ensures Add(InRule(chain, prog), TreeOf(i)) == InRule(chain, prog + [i])
  {
    assert Trees(prog + [i]) == Trees(prog) + [TreeOf(i)];
  }

  /** The builder of one instruction. */
  method AddExpr(m: Message, i: Instr, ghost chain: string, ghost prog: Program)
    requires m.Valid() && m.draft == InRule(chain, prog) && Modest(i) && (i.Ct? ==> i.key == CT_STATE)
    requires m.len + 112 <= BUF_SIZE
    modifies m, m.buf
    ensures m.Valid() && m.draft == InRule(chain, prog + [i]) && m.len <= old(m.len) + 112
  {
    hide Rendered, InRule, TreeOf;
    InRuleAdd(chain, prog, i);
    match i
    case Immediate(code) => AddImmediateVerdict(m, code);
    case Jump(target) => AddImmediateVerdictChain(m, target);
    case Payload(base, offset, len, dreg) => AddPayloadLoad(m, base, offset, len, dreg);
    case Cmp(sreg, op, data) => AddCmp(m, sreg, op, data);
    case Meta(key, dreg) => AddMeta(m, key, dreg);
    case Ct(_, dreg) => AddCtState(m, dreg);
    case Bitwise(sreg, dreg, len, mask, xor) => AddBitwise(m, sreg, dreg, len, mask, xor);
  }

  method BeginRule(chain: string) returns (m: Message, exprs: nat)
    requires |chain| <= 16
    ensures fresh(m) && fresh(m.buf) && m.Valid() && m.draft == InRule(chain, []) && m.len <= 80
    ensures exprs == FIXED_LEN + |Rendered(RuleHead(chain))|
  {
    hide Rendered, Ascii, Str;
    m := new Message();
    PutStr(m, 1, Ascii(TABLE_NAME));
    PutStr(m, 2, Ascii(chain));
    assert m.draft == RuleHead(chain) by {
      assert m.draft.kids == [Str(1, Ascii(TABLE_NAME)), Str(2, Ascii(chain))];
    }
    exprs := m.BeginNest(4);
    assert Trees([]) == [];
  }

  /** The message of netlink_flush_chain: a table and a chain, and no rule in particular. */
  method WriteFlush(chain: string) returns (m: Message)
    requires |chain| <= 16
    ensures fresh(m) && fresh(m.buf) && m.Valid() && m.draft == Root(FlushAttrs(chain))
  {
    hide Rendered, Ascii, Str;
    m := new Message();
    PutStr(m, 1, Ascii(TABLE_NAME));
    PutStr(m, 2, Ascii(chain));
    assert m.draft.kids == FlushAttrs(chain);
  }

  /** A rule message: table, chain, and the builders of the program's instructions in order. Used for
      the rules of netlink_add_established_rule, netlink_add_jump_allowed, add_drop_family and
      netlink_rule_insert, whose calls the programs list. */
  method WriteRule(chain: string, prog: Program) returns (m: Message)
    requires |chain| <= 16 && Sound(prog)
    ensures fresh(m) && fresh(m.buf) && m.Valid() && m.draft == Root(RuleAttrs(chain, prog))
  {
    hide Rendered, Ascii, Str, Trees, Fits32, Modest, InRule, Close, RuleHead, RuleAttrs;
    RuleShape(chain, prog);
    var exprs;
    m, exprs := BeginRule(chain);
    for k := 0 to |prog|
      invariant fresh(m) && fresh(m.buf) && m.Valid() && m.draft == InRule(chain, prog[..k]) && m.len <= 80 + 112 * k
    {
      AddExpr(m, prog[k], chain, prog[..k]);
      assert prog[..k + 1] == prog[..k] + [prog[k]];
    }
    assert prog[..|prog|] == prog;
    m.EndNest(exprs);
  }

  lemma RuleShape(chain: string, prog: Program)
    ensures InRule(chain, prog).Open? && InRule(chain, prog).outer == RuleHead(chain)
    ensures Close(InRule(chain, prog)) == Root(RuleAttrs(chain, prog))
  {
    hide Str, Ascii, Trees;
    assert Close(InRule(chain, prog)).kids == RuleAttrs(chain, prog);
  }
}
