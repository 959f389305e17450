/** The public rule operations of src/netlink.c in the order daemon_setup_netlink calls them:
    from the bytes sent to the programs the kernel ends up with. */
module Netlink {
  import opened Bytes
  import opened Addr
  import opened Nlattr
  import opened NftRules
  import opened NftMessages
  import NftBuild
  import opened Firewall

  const FAMILY4: nat := 2
  const FAMILY6: nat := 10

  function Family(v6: bool): nat { if v6 then FAMILY6 else FAMILY4 }

  // ---- what a batch asks for ------------------------------------------------------------------

  /** A change to one chain of the table "totpgate" of one family. */
  datatype Change =
    | Append(family: nat, chain: seq<byte>, prog: Program)
    | Prepend(family: nat, chain: seq<byte>, prog: Program)
    | Flush(family: nat, chain: seq<byte>)

  /** The change a batch asks the kernel for: a rule to add, or a chain to empty. The kernel's numbers stand
      here as such: 16 and 17 begin and end a batch for subsystem 10, 0x0a06 adds and 0x0a08 removes. */
  function Request(batch: seq<byte>): Option<Change> {
    match ParseBatch(batch)
    case None => None
    case Some(ms) =>
      if |ms| == 3 && ms[0].0.kind == 16 && ms[0].0.resId == 10 && ms[2].0.kind == 17 && ms[2].0.resId == 10
      then Asked(ms[1].0, ms[1].1) else None
  }

  predicate HasFlag(flags: nat, bit: nat)
    requires bit > 0
  {
    flags / bit % 2 == 1
  }

  /** A request (flag 1) may create a rule (flag 0x400), which goes to the end of its chain with flag 0x800
      and to the front without. */
  function Asked(h: Header, attrs: seq<Attr>): Option<Change> {
    if !HasFlag(h.flags, 1) then None
    else if h.kind == 0x0a06 && HasFlag(h.flags, 0x400) then
      match ReadRule(attrs)
      case Some((table, chain, prog)) =>
        if table != Ascii("totpgate") then None
        else if HasFlag(h.flags, 0x800) then Some(Append(h.family, chain, prog))
        else Some(Prepend(h.family, chain, prog))
      case None => None
    else if h.kind == 0x0a08 then
      match ReadFlush(attrs)
      case Some((table, chain)) => if table == Ascii("totpgate") then Some(Flush(h.family, chain)) else None
      case None => None
    else None
  }

  function Apply(rules: seq<Program>, change: Change, family: nat, chain: seq<byte>): seq<Program> {
    if change.family != family || change.chain != chain then rules
    else
      match change
      case Append(_, _, prog) => rules + [prog]
      case Prepend(_, _, prog) => [prog] + rules
      case Flush(_, _) => []
  }

  /** The programs in one chain of one family after the kernel took these batches. */
  function Kernel(taken: seq<seq<byte>>, family: nat, chain: seq<byte>): seq<Program> {
    if |taken| == 0 then []
    else
      var rules := Kernel(taken[..|taken| - 1], family, chain);
      match Request(taken[|taken| - 1])
      case Some(change) => Apply(rules, change, family, chain)
      case None => rules
  }

  lemma KernelSnoc(taken: seq<seq<byte>>, batch: seq<byte>, change: Change, family: nat, chain: seq<byte>)
    requires Request(batch) == Some(change)
    ensures Kernel(taken + [batch], family, chain) == Apply(Kernel(taken, family, chain), change, family, chain)
  {
    hide Request, Apply;
    assert (taken + [batch])[..|taken|] == taken;
  }

  /** The kernel's verdict on a packet once it took these batches: IPv4 is family 2 and IPv6 family 10. */
  function KernelVerdict(taken: seq<seq<byte>>, p: Pkt, regs: Regs): nat {
    var family := if p.v6 then 10 else 2;
    EvalInput(Kernel(taken, family, Ascii("input")), Kernel(taken, family, Ascii("allowed_ips")), p, regs)
  }

  /** Both families hold the whole input chain and exactly these grants. */
  ghost predicate Carries(taken: seq<seq<byte>>, port: nat, name: seq<byte>, grants: seq<Granted>) {
    forall v6 ::
      && Kernel(taken, Family(v6), Ascii(CHAIN_NAME)) == InputChain(port, name)
      && Kernel(taken, Family(v6), Ascii(ALLOWED_NAME)) == AllowedChain(grants, port, v6)
  }

  /** What was sent decides as the specified rules do. */
  lemma CarriedVerdict(taken: seq<seq<byte>>, port: nat, name: seq<byte>, grants: seq<Granted>, p: Pkt, regs: Regs)
    requires Carries(taken, port, name, grants)
    ensures KernelVerdict(taken, p, regs) == FilterVerdict(port, name, grants, p, regs)
  {
    hide Kernel, InputChain, AllowedChain, EvalInput, Ascii;
    assert Kernel(taken, Family(p.v6), Ascii(CHAIN_NAME)) == InputChain(port, name);
  }

  /** The family of a rule is that of its address. */
  lemma FamilyOf(a: SockAddr)
    ensures Family(a.V6?) == FromSockaddr(a).family as nat == if a.V6? then 10 else 2
  {
    hide Zeros;
    assert (2 as bv16) as nat == 2 && (10 as bv16) as nat == 10;
  }

  lemma ChainNames()
    ensures Ascii(CHAIN_NAME) != Ascii(ALLOWED_NAME)
  {
    assert |Ascii(CHAIN_NAME)| != |Ascii(ALLOWED_NAME)|;
  }

  // ---- sending --------------------------------------------------------------------------------

  method RuleBatch(sock: Socket, family: nat, chain: string, prog: Program) returns (batch: seq<byte>)
    requires sock.Valid() && Sound(prog) && |chain| <= 16 && family < 256
    modifies sock`seqno
    ensures sock.Valid() && |batch| <= BUF_SIZE && Request(batch) == Some(Append(family, Ascii(chain), prog))
  {
    hide Ascii, RuleAttrs, ParseBatch, ReadRule, Sound, AllEncodable, SerializeAll;
    var m := NftBuild.WriteRule(chain, prog);
    RuleReads(chain, prog);
    RuleSmall(chain, prog);
    batch := sock.Wrap(NEWRULE, RULE_FLAGS, family, m, RuleAttrs(chain, prog));
  }

  method FlushBatch(sock: Socket, family: nat, chain: string) returns (batch: seq<byte>)
    requires sock.Valid() && |chain| <= 16 && family < 256
    modifies sock`seqno
    ensures sock.Valid() && |batch| <= BUF_SIZE && Request(batch) == Some(Flush(family, Ascii(chain)))
  {
    hide Ascii, FlushAttrs, ParseBatch, ReadFlush, AllEncodable, SerializeAll;
    var m := NftBuild.WriteFlush(chain);
    FlushReads(chain);
    FlushSmall(chain);
    batch := sock.Wrap(DELRULE, FLUSH_FLAGS, family, m, FlushAttrs(chain));
  }

  /** One more batch was sent, and it asks for this change. */
  ghost predicate Sent(before: seq<seq<byte>>, after: seq<seq<byte>>, change: Change) {
    |after| == |before| + 1 && after[..|before|] == before && Request(after[|before|]) == Some(change)
  }

  /** Two more batches were sent: the rule for the input chain of family 2, then of family 10. */
  ghost predicate SentBoth(before: seq<seq<byte>>, after: seq<seq<byte>>, prog: Program) {
    exists half ::
      Sent(before, half, Append(2, Ascii("input"), prog)) && Sent(half, after, Append(10, Ascii("input"), prog))
  }

  /** The globals of src/netlink.c, and the batches the kernel has taken. */
  class Link {
    const sock: Socket
    /** g_next_handle */
    var nextHandle: nat
    ghost var taken: seq<seq<byte>>

    ghost predicate Valid()
      reads this, sock
    {
      sock.Valid() && nextHandle > 0
    }

    /** The two chains of one family in the kernel. */
    ghost function Input(v6: bool): seq<Program>
      reads this
    {
      Kernel(taken, Family(v6), Ascii(CHAIN_NAME))
    }

    ghost function AllowedIps(v6: bool): seq<Program>
      reads this
    {
      Kernel(taken, Family(v6), Ascii(ALLOWED_NAME))
    }

    /** netlink_init, once it has succeeded and created six objects: both families have two empty chains. */
    constructor (pid: nat)
      requires pid < TWO32
      ensures Valid() && fresh(sock) && nextHandle == 6 && taken == []
    {
      sock := new Socket(pid);
      nextHandle := 6;
      taken := [];
    }

    /** One rule on its way: the kernel takes it (`ok`) or the program returns an error. */
    method Send(family: nat, chain: string, prog: Program, ok: bool)
      requires Valid() && Sound(prog) && |chain| <= 16 && family < 256
      modifies this, sock
      ensures Valid() && nextHandle == old(nextHandle) + if ok then 1 else 0
      ensures if ok then Sent(old(taken), taken, Append(family, Ascii(chain), prog)) else taken == old(taken)
      ensures forall f, c ::
        var before := old(Kernel(taken, f, c));
        Kernel(taken, f, c) == if ok then Apply(before, Append(family, Ascii(chain), prog), f, c) else before
    {
      hide Ascii, Kernel, Request, Apply, Sound;
      var batch := RuleBatch(sock, family, chain, prog);
      if ok {
        forall f, c
          ensures Kernel(taken + [batch], f, c) == Apply(Kernel(taken, f, c), Append(family, Ascii(chain), prog), f, c)
        {
          KernelSnoc(taken, batch, Append(family, Ascii(chain), prog), f, c);
        }
        taken := taken + [batch];
        nextHandle := nextHandle + 1;
      }
    }

    /** netlink_rule_insert: the handle of the new rule, or 0. What the kernel took is the rule that
        accepts this address at this port and interface, at the end of allowed_ips of its family. */
    method RuleInsert(addr: SockAddr, port: nat, iface: Option<seq<byte>>, ghost name: seq<byte>,
                      ghost grants: seq<Granted>,
                      ok: bool) returns (handle: nat)
      requires Valid() && IfaceArg(iface, name) && IsName(name) && Carries(taken, port, name, grants)
      modifies this, sock
      ensures Valid() && handle == (if ok then old(nextHandle) else 0)
      ensures nextHandle == old(nextHandle) + if ok then 1 else 0
      ensures Carries(taken, port, name, if ok then grants + [Granted(addr, iface)] else grants)
      ensures ok ==> Sent(old(taken), taken,
                          Append(FromSockaddr(addr).family as nat, Ascii("allowed_ips"), AllowRule(addr, port, iface)))
    {
      hide AllowRule, AllowedChain, InputChain, Ascii, Kernel, IfaceArg, IsName, Sound, Sent, FromSockaddr;
      assert |name| < 16 by { NameLength(name); }
      RulesSound(addr, port, iface, name);
      ChainNames();
      FamilyOf(addr);
      AllowedSnoc(grants, Granted(addr, iface), port, false);
      AllowedSnoc(grants, Granted(addr, iface), port, true);
      handle := if ok then nextHandle else 0;
      Send(Family(addr.V6?), ALLOWED_NAME, AllowRule(addr, port, iface), ok);
    }

    /** netlink_flush_chain: allowed_ips of both families is emptied, nothing else changes. */
    method FlushChain()
      requires Valid()
      modifies this, sock
      ensures Valid() && nextHandle == old(nextHandle)
      ensures forall v6 :: AllowedIps(v6) == [] && Input(v6) == old(Input(v6))
    {
      hide Ascii, Kernel, Request;
      ChainNames();
      var b4 := FlushBatch(sock, FAMILY4, ALLOWED_NAME);
      var b6 := FlushBatch(sock, FAMILY6, ALLOWED_NAME);
      forall f, c
        ensures var first := Apply(Kernel(taken, f, c), Flush(FAMILY4, Ascii(ALLOWED_NAME)), f, c);
                Kernel(taken + [b4] + [b6], f, c) == Apply(first, Flush(FAMILY6, Ascii(ALLOWED_NAME)), f, c)
      {
        KernelSnoc(taken, b4, Flush(FAMILY4, Ascii(ALLOWED_NAME)), f, c);
        KernelSnoc(taken + [b4], b6, Flush(FAMILY6, Ascii(ALLOWED_NAME)), f, c);
      }
      taken := taken + [b4] + [b6];
    }

    /** What netlink_add_established_rule, netlink_add_jump_allowed and netlink_add_default_drop share:
        one program for the input chain of both families, given up at the first that is not taken. */
    method AppendBoth(prog: Program, ok4: bool, ok6: bool) returns (ok: bool)
      requires Valid() && Sound(prog)
      modifies this, sock
      ensures Valid() && ok == (ok4 && ok6) && (ok ==> nextHandle == old(nextHandle) + 2)
      ensures Input(false) == old(Input(false)) + if ok4 then [prog] else []
      ensures Input(true) == old(Input(true)) + if ok then [prog] else []
      ensures AllowedIps(false) == old(AllowedIps(false)) && AllowedIps(true) == old(AllowedIps(true))
      ensures ok ==> SentBoth(old(taken), taken, prog)
    {
      hide Ascii, Kernel, Sound;
      ChainNames();
      Send(FAMILY4, CHAIN_NAME, prog, ok4);
      if !ok4 {
        return false;
      }
      ghost var half := taken;
      Send(FAMILY6, CHAIN_NAME, prog, ok6);
      ok := ok6;
      assert ok ==> Sent(half, taken, Append(10, Ascii("input"), prog));
    }

    /** The netlink part of daemon_setup_netlink: it succeeds exactly when the kernel takes all six
        rules, and then both families hold the whole input chain, in order, and no grant. Otherwise it
        stops, and each family holds a beginning of that chain. */
    method SetupInput(port: nat, name: seq<byte>, oks: seq<bool>) returns (ok: bool)
      requires Valid() && IsName(name) && |oks| == 6
      requires Input(false) == [] && Input(true) == []
      modifies this, sock
      ensures Valid() && ok == (forall i :: 0 <= i < 6 ==> oks[i])
      ensures ok ==> Carries(taken, port, name, []) && nextHandle == old(nextHandle) + 6
      ensures Input(false) <= InputChain(port, name) && Input(true) <= InputChain(port, name)
    {
      hide Ascii, Kernel, EstablishedRule, DropRule, JumpRule, Sound, IsName, InputChain, Carries, AllowedChain;
      hide Input, AllowedIps, SentBoth;
      var iface := if name != [] then Some(name) else None;
      assert |name| < 16 by { NameLength(name); }
      RulesSound(V4(Zeros(4), 0), port, iface, name);
      InputBeginnings(port, name, iface);
      FlushChain();
      ok := AppendBoth(EstablishedRule(iface), oks[0], oks[1]);
      if !ok {
        return;
      }
      ok := AppendBoth(JumpRule(), oks[2], oks[3]);
      if !ok {
        return;
      }
      ok := AppendBoth(DropRule(port, iface), oks[4], oks[5]);
      if ok {
        AllCarried(this, port, name);
      }
    }
  }

  lemma InputBeginnings(port: nat, name: seq<byte>, iface: Option<seq<byte>>)
    requires iface == if name != [] then Some(name) else None
    ensures [] <= InputChain(port, name) && [EstablishedRule(iface)] <= InputChain(port, name)
    ensures [EstablishedRule(iface)] + [JumpRule()] <= InputChain(port, name)
    ensures [EstablishedRule(iface)] + [JumpRule()] + [DropRule(port, iface)] == InputChain(port, name)
  {
    hide EstablishedRule, DropRule, JumpRule;
  }

  lemma AllCarried(link: Link, port: nat, name: seq<byte>)
    requires link.AllowedIps(false) == [] && link.AllowedIps(true) == []
    requires link.Input(false) == InputChain(port, name) && link.Input(true) == InputChain(port, name)
    ensures Carries(link.taken, port, name, [])
  {
    hide Kernel, Ascii, InputChain;
    forall v6
      ensures link.Input(v6) == InputChain(port, name) && link.AllowedIps(v6) == []
    {
      assert v6 == false || v6 == true;
    }
  }

  lemma NameLength(name: seq<byte>)
    requires IsName(name)
    ensures |name| < 16
  {
  }
}
