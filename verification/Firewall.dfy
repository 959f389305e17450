/** What the installed rules do to a packet: an evaluator for the register programs as the
    specification, and the meaning of the two chains. */
module Firewall {
  import opened Bytes
  import opened Addr
  import opened Nlattr
  import opened NftRules
  import opened NftMessages

  /** A packet at the input hook. `iif` is the name of its interface, `ct` its conntrack state bits,
      `net` and `trans` its network and transport header as far as they are there. */
  datatype Pkt = Pkt(v6: bool, iif: seq<byte>, proto: byte, ct: word, net: seq<byte>, trans: seq<byte>)

  /** Sixteen 32-bit registers. */
  type Regs = r: seq<byte> | |r| == 64 witness Zeros(64)

  datatype Outcome = Next(regs: Regs) | Break(regs: Regs) | Verdict(code: nat, regs: Regs) | JumpTo(regs: Regs)

  /** The 32-bit registers are numbered from 8. */
  function RegPos(reg: nat): nat { if reg < 8 then 0 else 4 * (reg - 8) }

  /** Store into registers from `reg` on; the last one is filled up with zeros. */
  function Store(regs: Regs, reg: nat, data: seq<byte>): (r: Regs)
    ensures RegPos(reg) + |data| <= 64 ==> r[RegPos(reg)..RegPos(reg) + |data|] == data
  {
    var at := RegPos(reg);
    if at + Align4(|data|) <= 64 then
      regs[..at] + data + Zeros(Align4(|data|) - |data|) + regs[at + Align4(|data|)..]
    else if at + |data| <= 64 then regs[..at] + data + regs[at + |data|..]
    else regs
  }

  /** The register bytes an instruction looks at. */
  function Fetch(regs: Regs, reg: nat, len: nat): seq<byte> {
    if RegPos(reg) + len <= 64 then regs[RegPos(reg)..RegPos(reg) + len] else []
  }

  function LittleBytes(w: word): seq<byte> {
    [(w & 0xff) as byte, ((w >> 8) & 0xff) as byte, ((w >> 16) & 0xff) as byte, (w >> 24) as byte]
  }

  function MaskXor(x: seq<byte>, mask: seq<byte>, xor: seq<byte>): (r: seq<byte>)
    requires |x| == |mask| == |xor|
    ensures |r| == |x|
  {
    seq(|x|, i requires 0 <= i < |x| => (x[i] & mask[i]) ^ xor[i])
  }

  /** One expression, by the kernel's own numbers: header 1 is the network's and 2 the transport's,
      comparison 0 is for equality and 1 against it, meta key 6 is the interface name and 16 the protocol,
      and conntrack key 0 is the state. */
  function Exec(i: Instr, p: Pkt, regs: Regs): Outcome {
    match i
    case Immediate(code) => Verdict(code, regs)
    case Jump(chain) => if chain == Ascii("allowed_ips") then JumpTo(regs) else Break(regs)
    case Payload(base, offset, len, dreg) =>
      var header := if base == 1 then p.net else if base == 2 then p.trans else [];
      if offset + len <= |header| then Next(Store(regs, dreg, header[offset..offset + len])) else Break(regs)
    case Cmp(sreg, op, data) =>
      var equal := Fetch(regs, sreg, |data|) == data;
      if (op == 0 && equal) || (op == 1 && !equal) then Next(regs) else Break(regs)
    case Meta(key, dreg) =>
      if key == 16 then Next(Store(regs, dreg, [p.proto]))
      else if key == 6 && |p.iif| <= 16 then Next(Store(regs, dreg, p.iif + Zeros(16 - |p.iif|)))
      else Break(regs)
    case Ct(key, dreg) => if key == 0 then Next(Store(regs, dreg, LittleBytes(p.ct))) else Break(regs)
    case Bitwise(sreg, dreg, len, mask, xor) =>
      var x := Fetch(regs, sreg, len);
      if |x| == |mask| == |xor| then Next(Store(regs, dreg, MaskXor(x, mask, xor))) else Break(regs)
  }

  /** Run a rule: the outcome of the last instruction it gets to. */
  function EvalRule(prog: Program, p: Pkt, regs: Regs): Outcome {
    if |prog| == 0 then Break(regs)
    else
      var o := Exec(prog[0], p, regs);
      if o.Next? then EvalRule(prog[1..], p, o.regs) else o
  }

  /** A chain reached by a jump: a verdict, or none when the end is reached. */
  function EvalChain(chain: seq<Program>, p: Pkt, regs: Regs): (Option<nat>, Regs) {
    if |chain| == 0 then (None, regs)
    else
      var o := EvalRule(chain[0], p, regs);
      if o.Verdict? then (Some(o.code), o.regs) else EvalChain(chain[1..], p, o.regs)
  }

  /** A base chain with policy accept; a jump continues behind the jumping rule if it yields nothing. */
  function EvalInput(input: seq<Program>, allowed: seq<Program>, p: Pkt, regs: Regs): nat {
    if |input| == 0 then 1
    else
      match EvalRule(input[0], p, regs)
      case Verdict(code, _) => code
      case JumpTo(r) =>
        var (v, r') := EvalChain(allowed, p, r);
        if v.Some? then v.value else EvalInput(input[1..], allowed, p, r')
      case Next(r) => EvalInput(input[1..], allowed, p, r)
      case Break(r) => EvalInput(input[1..], allowed, p, r)
  }

  // ---- the intended meaning -----------------------------------------------------------------

  /** No name, or the packet came in on that interface. */
  predicate OnIface(p: Pkt, iface: seq<byte>) { iface == [] || p.iif == iface }

  predicate ToPort(p: Pkt, port: nat) { |p.trans| >= 4 && p.trans[2..4] == BigEndian(port, 2) }

  predicate Established(p: Pkt) { p.ct & 6 != 0 }

  /** The source address in the network header is `a`. */
  predicate From(p: Pkt, a: SockAddr) {
    match a
    case V4(a4, _) => !p.v6 && |p.net| >= 16 && p.net[12..16] == a4
    case V6(a6, _) => p.v6 && |p.net| >= 24 && p.net[8..24] == a6
  }

  /** A kernel interface name: shorter than IFNAMSIZ and without a zero byte. */
  ghost predicate IsName(s: seq<byte>) { |s| < 16 && forall i :: 0 <= i < |s| ==> s[i] != 0 }

  // ---- single matches -----------------------------------------------------------------------

  lemma StoreFetch(regs: Regs, data: seq<byte>)
    requires |data| <= 16
    ensures forall k :: 0 <= k <= |data| ==> Fetch(Store(regs, REG32_00, data), REG32_00, k) == data[..k]
  {
    var r := Store(regs, REG32_00, data);
    assert r[..|data|] == data;
    assert forall k :: 0 <= k <= |data| ==> r[..k] == r[..|data|][..k];
  }

  /** A load followed by a comparison goes on exactly when the loaded bytes start with the data. */
  lemma LoadCompare(load: Instr, data: seq<byte>, rest: Program, p: Pkt, regs: Regs, x: seq<byte>)
    requires Exec(load, p, regs) == Next(Store(regs, REG32_00, x)) && |data| <= |x| <= 16
    ensures EvalRule([load, Cmp(REG32_00, CMP_EQ, data)] + rest, p, regs)
         == if x[..|data|] == data then EvalRule(rest, p, Store(regs, REG32_00, x)) else Break(Store(regs, REG32_00, x))
  {
    hide Store, Fetch;
    var prog := [load, Cmp(REG32_00, CMP_EQ, data)] + rest;
    assert prog[1..] == [Cmp(REG32_00, CMP_EQ, data)] + rest && prog[1..][1..] == rest;
    StoreFetch(regs, x);
  }

  /** A load that finds nothing to load ends the rule. */
  lemma LoadFails(load: Instr, rest: Program, p: Pkt, regs: Regs)
    requires Exec(load, p, regs) == Break(regs)
    ensures EvalRule([load] + rest, p, regs) == Break(regs)
  {
  }

  /** Zero-terminated comparison of zero-padded names is equality of names. */
  lemma NamePrefix(iif: seq<byte>, name: seq<byte>)
    requires IsName(iif) && IsName(name)
    ensures (iif + Zeros(16 - |iif|))[..|name| + 1] == name + [0] <==> iif == name
  {
    var x := iif + Zeros(16 - |iif|);
    var prefix := x[..|name| + 1];
    if |iif| < |name| {
      assert prefix[|iif|] == 0 && (name + [0])[|iif|] != 0;
    } else if prefix == name + [0] {
      assert prefix[|name|] == x[|name|] == 0;
      assert |iif| == |name|;
      assert iif == prefix[..|name|];
    }
  }

  /** The interface match: skipped without a name, else equality. */
  lemma IifMeans(iface: Option<seq<byte>>, name: seq<byte>, rest: Program, p: Pkt, regs: Regs) returns (r: Regs)
    requires IfaceArg(iface, name) && IsName(name) && IsName(p.iif)
    ensures EvalRule(IifMatch(iface) + rest, p, regs) == if OnIface(p, name) then EvalRule(rest, p, r) else Break(r)
  {
    hide Store, EvalRule;
    r := regs;
    if name == [] {
      assert IifMatch(iface) + rest == rest;
    } else {
      var x := p.iif + Zeros(16 - |p.iif|);
      r := Store(regs, REG32_00, x);
      LoadCompare(Meta(META_IIFNAME, REG32_00), name + [0], rest, p, regs, x);
      NamePrefix(p.iif, name);
    }
  }

  /** An interface argument that stands for the configured name: NULL or "" for none. */
  ghost predicate IfaceArg(iface: Option<seq<byte>>, name: seq<byte>) {
    iface == Some(name) || (iface.None? && name == [])
  }

  lemma PortMeans(port: nat, rest: Program, p: Pkt, regs: Regs) returns (r: Regs)
    ensures EvalRule(PortMatch(port) + rest, p, regs) == if ToPort(p, port) then EvalRule(rest, p, r) else Break(r)
  {
    hide Store, EvalRule, BigEndian;
    var load := Payload(TRANSPORT_HEADER, 2, 2, REG32_00);
    if |p.trans| >= 4 {
      r := Store(regs, REG32_00, p.trans[2..4]);
      LoadCompare(load, BigEndian(port, 2), rest, p, regs, p.trans[2..4]);
      assert p.trans[2..4][..2] == p.trans[2..4];
    } else {
      r := regs;
      assert PortMatch(port) + rest == [load] + ([Cmp(REG32_00, CMP_EQ, BigEndian(port, 2))] + rest);
      LoadFails(load, [Cmp(REG32_00, CMP_EQ, BigEndian(port, 2))] + rest, p, regs);
    }
  }

  lemma SourceMeans(a: SockAddr, rest: Program, p: Pkt, regs: Regs) returns (r: Regs)
    requires p.v6 == a.V6?
    ensures EvalRule(SourceMatch(a) + rest, p, regs) == if From(p, a) then EvalRule(rest, p, r) else Break(r)
  {
    hide Store, EvalRule;
    var (at, len, data) := if a.V4? then (12, 4, a.addr4) else (8, 16, a.addr6);
    var load := Payload(NETWORK_HEADER, at, len, REG32_00);
    assert SourceMatch(a) == [load, Cmp(REG32_00, CMP_EQ, data)];
    if |p.net| >= at + len {
      var x := p.net[at..at + len];
      r := Store(regs, REG32_00, x);
      LoadCompare(load, data, rest, p, regs, x);
      assert x[..len] == x;
    } else {
      r := regs;
      assert SourceMatch(a) + rest == [load] + ([Cmp(REG32_00, CMP_EQ, data)] + rest);
      LoadFails(load, [Cmp(REG32_00, CMP_EQ, data)] + rest, p, regs);
    }
  }

  lemma ProtoMeans(rest: Program, p: Pkt, regs: Regs) returns (r: Regs)
    ensures EvalRule([Meta(META_L4PROTO, REG32_00), Cmp(REG32_00, CMP_EQ, [6])] + rest, p, regs)
         == if p.proto == 6 then EvalRule(rest, p, r) else Break(r)
  {
    hide Store, EvalRule;
    r := Store(regs, REG32_00, [p.proto]);
    LoadCompare(Meta(META_L4PROTO, REG32_00), [6], rest, p, regs, [p.proto]);
    assert [p.proto][..1] == [p.proto];
  }

  lemma VerdictMeans(code: nat, p: Pkt, regs: Regs)
    ensures EvalRule([Immediate(code)], p, regs) == Verdict(code, regs)
  {
  }

  /** The masked conntrack state is nonzero exactly for established or related packets. */
  lemma CtBits(w: word)
    ensures MaskXor(LittleBytes(w), [6, 0, 0, 0], [0, 0, 0, 0]) == [0, 0, 0, 0] <==> w & 6 == 0
  {
    var m := MaskXor(LittleBytes(w), [6, 0, 0, 0], [0, 0, 0, 0]);
    assert m[1] == 0 && m[2] == 0 && m[3] == 0;
    LowBits(w);
    assert m[0] == ((w & 0xff) as byte & 6) ^ 0;
    assert m == [m[0], m[1], m[2], m[3]];
  }

  lemma LowBits(w: word)
    ensures ((w & 0xff) as byte & 6) ^ 0 == 0 <==> w & 6 == 0
  {
  }

  lemma StateMeans(p: Pkt, regs: Regs) returns (r: Regs)
    ensures EvalRule([Ct(CT_STATE, REG32_00), Bitwise(REG32_00, REG32_00, 4, [6, 0, 0, 0], [0, 0, 0, 0]),
                      Cmp(REG32_00, CMP_NEQ, [0, 0, 0, 0]), Immediate(NF_ACCEPT)], p, regs)
         == if Established(p) then Verdict(NF_ACCEPT, r) else Break(r)
  {
    hide Store, Fetch, MaskXor, LittleBytes;
    var cmp, done := Cmp(REG32_00, CMP_NEQ, [0, 0, 0, 0]), Immediate(NF_ACCEPT);
    var bits := Bitwise(REG32_00, REG32_00, 4, [6, 0, 0, 0], [0, 0, 0, 0]);
    var prog := [Ct(CT_STATE, REG32_00), bits, cmp, done];
    assert prog[1..] == [bits, cmp, done] && prog[1..][1..] == [cmp, done] && prog[1..][1..][1..] == [done];
    StateBytes(p.ct);
    var x := LittleBytes(p.ct);
    var r1 := Store(regs, REG32_00, x);
    StoreFetch(regs, x);
    assert x[..4] == x;
    var y := MaskXor(x, [6, 0, 0, 0], [0, 0, 0, 0]);
    r := Store(r1, REG32_00, y);
    StoreFetch(r1, y);
    assert y[..4] == y;
    CtBits(p.ct);
    VerdictMeans(NF_ACCEPT, p, r);
    assert Exec(prog[0], p, regs) == Next(r1) && Exec(bits, p, r1) == Next(r);
    assert EvalRule(prog, p, regs) == EvalRule([bits, cmp, done], p, r1) == EvalRule([cmp, done], p, r);
  }

  lemma StateBytes(w: word)
    ensures |LittleBytes(w)| == 4
  {
  }

  // ---- whole rules --------------------------------------------------------------------------

  lemma EstablishedMeans(iface: Option<seq<byte>>, name: seq<byte>, p: Pkt, regs: Regs) returns (r: Regs)
    requires IfaceArg(iface, name) && IsName(name) && IsName(p.iif)
    ensures EvalRule(EstablishedRule(iface), p, regs)
         == if OnIface(p, name) && Established(p) then Verdict(NF_ACCEPT, r) else Break(r)
  {
    hide EvalRule, IifMatch;
    var rest := [Ct(CT_STATE, REG32_00), Bitwise(REG32_00, REG32_00, 4, [6, 0, 0, 0], [0, 0, 0, 0]),
                 Cmp(REG32_00, CMP_NEQ, [0, 0, 0, 0]), Immediate(NF_ACCEPT)];
    r := IifMeans(iface, name, rest, p, regs);
    if OnIface(p, name) {
      r := StateMeans(p, r);
    }
  }

  lemma DropMeans(port: nat, iface: Option<seq<byte>>, name: seq<byte>, p: Pkt, regs: Regs) returns (r: Regs)
    requires IfaceArg(iface, name) && IsName(name) && IsName(p.iif)
    ensures EvalRule(DropRule(port, iface), p, regs)
         == if OnIface(p, name) && p.proto == 6 && ToPort(p, port) then Verdict(NF_DROP, r) else Break(r)
  {
    hide EvalRule, IifMatch, PortMatch;
    var proto := [Meta(META_L4PROTO, REG32_00), Cmp(REG32_00, CMP_EQ, [6])];
    var rest2 := PortMatch(port) + [Immediate(NF_DROP)];
    var rest1 := proto + rest2;
    assert DropRule(port, iface) == IifMatch(iface) + rest1;
    r := IifMeans(iface, name, rest1, p, regs);
    if OnIface(p, name) {
      r := ProtoMeans(rest2, p, r);
      if p.proto == 6 {
        r := PortMeans(port, [Immediate(NF_DROP)], p, r);
        VerdictMeans(NF_DROP, p, r);
      }
    }
  }

  lemma AllowMeans(a: SockAddr, port: nat, iface: Option<seq<byte>>, name: seq<byte>, p: Pkt,
                   regs: Regs) returns (r: Regs)
    requires IfaceArg(iface, name) && IsName(name) && IsName(p.iif) && p.v6 == a.V6?
    ensures EvalRule(AllowRule(a, port, iface), p, regs)
         == if OnIface(p, name) && From(p, a) && ToPort(p, port) then Verdict(NF_ACCEPT, r) else Break(r)
  {
    hide EvalRule, IifMatch, PortMatch, SourceMatch;
    var rest2 := PortMatch(port) + [Immediate(NF_ACCEPT)];
    var rest1 := SourceMatch(a) + rest2;
    assert AllowRule(a, port, iface) == IifMatch(iface) + rest1;
    r := IifMeans(iface, name, rest1, p, regs);
    if OnIface(p, name) {
      r := SourceMeans(a, rest2, p, r);
      if From(p, a) {
        r := PortMeans(port, [Immediate(NF_ACCEPT)], p, r);
        VerdictMeans(NF_ACCEPT, p, r);
      }
    }
  }

  // ---- the chains ---------------------------------------------------------------------------

  /** A granted address with the interface argument its rule was built with. */
  datatype Granted = Granted(addr: SockAddr, iface: Option<seq<byte>>)

  /** allowed_ips of one family. */
  function AllowedChain(grants: seq<Granted>, port: nat, v6: bool): seq<Program> {
    if |grants| == 0 then []
    else
      var rest := AllowedChain(grants[1..], port, v6);
      if grants[0].addr.V6? == v6 then [AllowRule(grants[0].addr, port, grants[0].iface)] + rest else rest
  }

  /** The input chain as daemon_setup_netlink fills it, in its order. */
  function InputChain(port: nat, name: seq<byte>): seq<Program> {
    var iface := if name != [] then Some(name) else None;
    [EstablishedRule(iface), JumpRule(), DropRule(port, iface)]
  }

  /** The verdict of the table of the packet's family. */
  function FilterVerdict(port: nat, name: seq<byte>, grants: seq<Granted>, p: Pkt, regs: Regs): nat {
    EvalInput(InputChain(port, name), AllowedChain(grants, port, p.v6), p, regs)
  }

  lemma {:induction false} AllowedSnoc(grants: seq<Granted>, g: Granted, port: nat, v6: bool)
    ensures AllowedChain(grants + [g], port, v6)
         == AllowedChain(grants, port, v6) + if g.addr.V6? == v6 then [AllowRule(g.addr, port, g.iface)] else []
  {
    hide AllowRule;
    if |grants| == 0 {
      assert grants + [g] == [g] && [g][1..] == [];
    } else {
      AllowedSnoc(grants[1..], g, port, v6);
      assert (grants + [g])[1..] == grants[1..] + [g];
    }
  }

  ghost predicate AllArgs(grants: seq<Granted>, name: seq<byte>) {
    forall i :: 0 <= i < |grants| ==> IfaceArg(grants[i].iface, name)
  }

  ghost predicate Admitted(grants: seq<Granted>, p: Pkt) {
    exists i :: 0 <= i < |grants| && From(p, grants[i].addr)
  }

  lemma {:induction false} AllowedMeans(grants: seq<Granted>, port: nat, name: seq<byte>, p: Pkt, regs: Regs)
    requires AllArgs(grants, name) && IsName(name) && IsName(p.iif)
    ensures EvalChain(AllowedChain(grants, port, p.v6), p, regs).0
         == if OnIface(p, name) && ToPort(p, port) && Admitted(grants, p) then Some(NF_ACCEPT) else None
    decreases |grants|
  {
    hide EvalRule, AllowRule, OnIface, ToPort, IfaceArg, IsName;
    if |grants| > 0 {
      var g, rest := grants[0], grants[1..];
      assert AllArgs(rest, name);
      assert Admitted(grants, p) <==> From(p, g.addr) || Admitted(rest, p) by {
        AdmittedSplit(grants, p);
      }
      if g.addr.V6? == p.v6 {
        var r := AllowMeans(g.addr, port, g.iface, name, p, regs);
        AllowedMeans(rest, port, name, p, r);
        var chain := AllowedChain(grants, port, p.v6);
        assert chain[0] == AllowRule(g.addr, port, g.iface) && chain[1..] == AllowedChain(rest, port, p.v6);
      } else {
        AllowedMeans(rest, port, name, p, regs);
      }
    }
  }

  lemma AdmittedSplit(grants: seq<Granted>, p: Pkt)
    requires |grants| > 0
    ensures Admitted(grants, p) <==> From(p, grants[0].addr) || Admitted(grants[1..], p)
  {
    hide From;
    if Admitted(grants[1..], p) {
      var i :| 0 <= i < |grants[1..]| && From(p, grants[1..][i].addr);
      assert From(p, grants[i + 1].addr);
    }
    if Admitted(grants, p) && !From(p, grants[0].addr) {
      var i :| 0 <= i < |grants| && From(p, grants[i].addr);
      assert From(p, grants[1..][i - 1].addr);
    }
  }

  /** The installed chains drop a packet if and only if it is TCP to the target port on the selected
      interface, is neither established nor related, and comes from no granted address; they accept
      every other packet (the kernel's verdicts 0 and 1). This holds whatever the registers held before. */
  lemma DropsExactly(port: nat, name: seq<byte>, grants: seq<Granted>, p: Pkt, regs: Regs)
    requires AllArgs(grants, name) && IsName(name) && IsName(p.iif)
    ensures FilterVerdict(port, name, grants, p, regs)
         == if OnIface(p, name) && p.proto == 6 && ToPort(p, port) && !Established(p) && !Admitted(grants, p)
            then 0 else 1
  {
    hide EvalRule, EstablishedRule, DropRule, OnIface, ToPort, Established;
    hide AllowedChain, EvalChain, AllArgs, IsName, Admitted;
    var iface := if name != [] then Some(name) else None;
    var allowed := AllowedChain(grants, port, p.v6);
    var drop := DropRule(port, iface);
    var input := InputChain(port, name);
    assert input[1..] == [JumpRule(), drop] && input[1..][1..] == [drop] && input[1..][1..][1..] == [];
    var r := EstablishedMeans(iface, name, p, regs);
    JumpMeans(p, r);
    AllowedMeans(grants, port, name, p, r);
    var r2 := DropMeans(port, iface, name, p, EvalChain(allowed, p, r).1);
    assert EvalInput(input, allowed, p, regs)
        == if OnIface(p, name) && Established(p) then NF_ACCEPT else EvalInput([JumpRule(), drop], allowed, p, r);
    assert EvalInput([drop], allowed, p, EvalChain(allowed, p, r).1)
        == if OnIface(p, name) && p.proto == 6 && ToPort(p, port) then NF_DROP else NF_ACCEPT by {
      assert [drop][1..] == [];
    }
  }

  lemma JumpMeans(p: Pkt, regs: Regs)
    ensures EvalRule(JumpRule(), p, regs) == JumpTo(regs)
  {
  }

  /** Every rule of the daemon can be written: numbers fit, names and addresses are short. */
  lemma RulesSound(a: SockAddr, port: nat, iface: Option<seq<byte>>, name: seq<byte>)
    requires IfaceArg(iface, name) && |name| < 16
    ensures Sound(EstablishedRule(iface)) && Sound(JumpRule()) && Sound(DropRule(port, iface))
    ensures Sound(AllowRule(a, port, iface))
  {
    hide BigEndian, Ascii;
  }
}
