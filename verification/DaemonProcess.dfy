/** struct daemon of src/main.c, updated in place, proved against the step machine; the rules it
    sends are bytes, and the kernel's chains are what those bytes ask for. */
module DaemonProcess {
  import opened Bytes
  import opened Addr
  import opened Daemon
  import opened Firewall
  import opened System
  import opened NftRules
  import Netlink
  import RateLimit
  import Auth

  class Process {
    const cfg: Config
    const rules: array<Rule>
    const replay: Auth.ReplayTable
    const rate: RateLimit.RateTable
    const link: Netlink.Link
    var numRules: nat
    var lastPrune: nat
    /** The kernel's allowed_ips chain, with the deadlines the kernel does not know. */
    ghost var chain: seq<ChainRule>

    ghost function View(): State
      reads this, rules, link, replay.slots, rate.slots
    {
      State(rules[..], numRules, lastPrune, chain, link.nextHandle, replay.slots[..], rate.slots[..])
    }

    /** What the kernel took is the input chain and one rule for each element of `chain`. */
    ghost predicate Linked()
      reads this, link, link.sock
    {
      && link.Valid() && IsName(cfg.iface) && Uniform(chain, cfg.iface)
      && Netlink.Carries(link.taken, cfg.port, cfg.iface, GrantsOf(chain))
    }

    ghost predicate Valid()
      reads this, rules, link, link.sock, replay.slots, rate.slots
    {
      Shaped(View()) && Linked()
    }

    /** daemon_setup behind a successful daemon_setup_netlink. */
    constructor (cfg: Config, mono: nat, link: Netlink.Link)
      requires link.Valid() && link.nextHandle == FIRST_HANDLE && IsName(cfg.iface)
      requires Netlink.Carries(link.taken, cfg.port, cfg.iface, [])
      ensures Valid() && View() == Init(mono) && this.cfg == cfg && this.link == link
      ensures fresh(rules) && fresh(replay.slots) && fresh(rate.slots)
    {
      this.cfg, this.link := cfg, link;
      rules := new Rule[256](_ => NO_RULE);
      replay := new Auth.ReplayTable();
      rate := new RateLimit.RateTable();
      numRules, lastPrune := 0, mono;
      chain := [];
    }

    /** netlink_rule_insert on behalf of the daemon: the handle of the new rule, or 0. */
    method Insert(addr: SockAddr, iface: Option<seq<byte>>, ghost deadline: nat, ok: bool) returns (handle: nat)
      requires Linked() && IfaceArg(iface, cfg.iface)
      modifies this`chain, link, link.sock
      ensures Linked() && handle == (if ok then old(link.nextHandle) else 0)
      ensures link.nextHandle == old(link.nextHandle) + if ok then 1 else 0
      ensures chain == old(chain) + if ok then [ChainRule(addr, iface, deadline)] else []
    {
      hide Netlink.Carries, IfaceArg, IsName;
      ghost var rule := ChainRule(addr, iface, deadline);
      handle := link.RuleInsert(addr, cfg.port, iface, cfg.iface, GrantsOf(chain), ok);
      assert GrantsOf(chain + [rule]) == GrantsOf(chain) + [Granted(addr, iface)];
      if ok {
        chain := chain + [rule];
      }
    }

    method RuleTrack(handle: nat, expiry: nat, addr: SockAddr)
      requires Valid()
      modifies this`numRules, rules
      ensures Valid() && View() == Track(old(View()), handle, expiry, addr)
    {
      for i := 0 to 256
        invariant rules[..] == old(rules[..]) && numRules == old(numRules)
        invariant FirstFree(rules[..], 0) == FirstFree(rules[..], i)
      {
        if !rules[i].active {
          rules[i] := Rule(true, handle, expiry, addr);
          if i >= numRules {
            numRules := i + 1;
          }
          return;
        }
      }
    }

    method RulePrune(now: nat, oks: seq<bool>)
      requires Valid()
      modifies this`chain, rules, link, link.sock
      ensures Valid() && View() == PruneRules(cfg, old(View()), now, oks)
    {
      var foundExpired := false;
      for i := 0 to numRules
        invariant foundExpired == FoundExpired(rules[..], i, now)
        invariant View() == old(View())
      {
        if rules[i].active {
          if now >= rules[i].expiry {
            foundExpired := true;
          }
        }
      }
      if foundExpired {
        RebuildChain(now, oks);
      }
    }

    /** netlink_flush_chain */
    method EmptyChain()
      requires Linked()
      modifies this`chain, link, link.sock
      ensures Linked() && chain == [] && link.nextHandle == old(link.nextHandle)
    {
      hide IsName, InputChain;
      assert forall v6 :: link.Input(v6) == InputChain(cfg.port, cfg.iface);
      link.FlushChain();
      assert link.Input(false) == link.Input(true) == InputChain(cfg.port, cfg.iface);
      Netlink.AllCarried(link, cfg.port, cfg.iface);
      chain := [];
      assert GrantsOf(chain) == [];
    }

    /** netlink_flush_chain and the second loop of rule_prune. */
    method RebuildChain(now: nat, oks: seq<bool>)
      requires Valid()
      modifies this`chain, rules, link, link.sock
      ensures Valid() && View() == Rebuild(cfg, old(View()), numRules, now, oks)
    {
      hide Netlink.Carries, IsName;
      EmptyChain();
      for i := 0 to numRules
        invariant Linked() && numRules == old(numRules) && Shaped(old(View()))
        invariant View() == Rebuild(cfg, old(View()), i, now, oks)
      {
        var rule := rules[i];
        if rule.active {
          if now < rule.expiry {
            var ok := i < |oks| && oks[i];
            var h := Insert(rule.addr, Some(cfg.iface), rule.expiry, ok);
            if h != 0 {
              rules[i] := rule.(handle := h);
            }
          } else {
            rules[i] := rule.(active := false);
          }
        }
      }
    }

    method HandleOnePacket(e: Event)
      requires Valid() && e.Packet?
      modifies this`numRules, this`chain, rules, link, link.sock, replay.slots, rate.slots
      ensures Valid() && View() == HandlePacket(cfg, old(View()), e)
    {
      hide Auth.Validate, Auth.Parse, RateLimit.Fail, RateLimit.Success, RateLimit.Allowed, Track, Normalize;
      hide Netlink.Carries, IsName, Uniform;
      var (ruleAddr, ip) := Normalize(e.src);
      var allowed := rate.Check(ip, e.now);
      if !allowed {
        return;
      }
      var token := Auth.ParseToken(e.data);
      if token.None? {
        rate.RecordFailure(ip, e.now, cfg.rate);
        return;
      }
      var accepted := replay.ValidateToken(cfg.secret, token.value, Window(e.now), ip, e.seenAt);
      if accepted.None? {
        rate.RecordFailure(ip, e.now, cfg.rate);
        return;
      }
      rate.Forgive(ip);
      assert View() == Authenticated(cfg, old(View()), e);
      var iface := if cfg.iface != [] then Some(cfg.iface) else None;
      var handle := Insert(ruleAddr, iface, e.now + cfg.timeout, e.inserted);
      if handle == 0 {
        return;
      }
      RuleTrack(handle, e.now + cfg.timeout, ruleAddr);
    }

    /** The prune check of daemon_process. */
    method CheckPrune(e: Event)
      requires Valid() && e.Tick?
      modifies this`lastPrune, this`chain, rules, link, link.sock, replay.slots
      ensures Valid() && View() == PruneCheck(cfg, old(View()), e)
    {
      hide PruneRules;
      if e.mono - lastPrune >= PRUNE_INTERVAL {
        lastPrune := e.mono;
        replay.Sweep(e.now, REPLAY_MAX_AGE);
        RulePrune(e.now, e.oks);
      }
    }

    /** Any sequence of loop passes and datagrams leaves the state the step machine computes, and a kernel
        whose verdict, by the bytes it was sent, is that of the state's rules. */
    method Serve(es: seq<Event>, ghost mono: nat)
      requires Valid() && View() == Init(mono)
      modifies this`numRules, this`lastPrune, this`chain, rules, link, link.sock, replay.slots, rate.slots
      ensures Valid() && View() == Run(cfg, mono, es, |es|)
      ensures forall p, regs ::
        Netlink.KernelVerdict(link.taken, p, regs) == System.Verdict(cfg, Run(cfg, mono, es, |es|).chain, p, regs)
    {
      hide HandlePacket, PruneCheck, Netlink.Carries, IsName, Uniform, Shaped;
      for k := 0 to |es|
        invariant Valid() && View() == Run(cfg, mono, es, k)
      {
        if es[k].Packet? {
          HandleOnePacket(es[k]);
        } else {
          CheckPrune(es[k]);
        }
      }
      forall p, regs
        ensures Netlink.KernelVerdict(link.taken, p, regs) == System.Verdict(cfg, chain, p, regs)
      {
        WireVerdict(cfg, link.taken, chain, p, regs);
      }
    }
  }

  /** daemon_setup: a daemon in its initial state if the kernel takes the six permanent rules, none
      otherwise. */
  method Setup(cfg: Config, mono: nat, pid: nat, oks: seq<bool>) returns (d: Process?)
    requires pid < TWO32 && |oks| == 6 && IsName(cfg.iface)
    ensures d != null <==> forall i :: 0 <= i < 6 ==> oks[i]
    ensures d != null ==> fresh(d) && d.Valid() && d.View() == Init(mono) && d.cfg == cfg
    ensures d != null ==> fresh(d.rules) && fresh(d.link) && fresh(d.link.sock)
    ensures d != null ==> fresh(d.replay.slots) && fresh(d.rate.slots)
  {
    hide Netlink.Carries, IsName;
    var link := new Netlink.Link(pid);
    var ok := link.SetupInput(cfg.port, cfg.iface, oks);
    if ok {
      d := new Process(cfg, mono, link);
    } else {
      d := null;
    }
  }

  /** A new connection that the kernel lets through, by the bytes it took, has a token behind it that is
      less than timeout + 5 seconds older than any prune check so far. */
  ghost predicate Guarded(cfg: Config, es: seq<Event>, taken: seq<seq<byte>>) {
    forall j: nat, p: Pkt, regs ::
      j < |es| && es[j].Tick? && IsName(p.iif) && Knocks(cfg, p) && Netlink.KernelVerdict(taken, p, regs) == NF_ACCEPT
      ==> TokenBehind(cfg, es, j, |es|, p)
  }

  /** And it lets through every packet of a host whose grant found room and has not ended. */
  ghost predicate Open(cfg: Config, mono: nat, es: seq<Event>, taken: seq<seq<byte>>) {
    forall k: nat, p: Pkt, regs ::
      k < |es| && es[k].Packet? && Granting(cfg, mono, es, k, |es|) && IsName(p.iif) && From(p, RuleAddr(es[k].src))
      ==> Netlink.KernelVerdict(taken, p, regs) == NF_ACCEPT
  }

  /** daemon_run: from a successful setup on, after any passes and datagrams, the bytes sent guard the port
      and keep it open to those who were granted it. */
  method RunDaemon(cfg: Config, mono: nat, pid: nat, oks: seq<bool>, es: seq<Event>, ghost offset: nat)
    returns (d: Process?)
    requires pid < TWO32 && |oks| == 6 && IsName(cfg.iface) && cfg.timeout >= 1 && ClocksRun(mono, offset, es)
    ensures d != null <==> forall i :: 0 <= i < 6 ==> oks[i]
    ensures d != null ==> d.Valid() && d.View() == Run(cfg, mono, es, |es|)
    ensures d != null ==> Guarded(cfg, es, d.link.taken) && Open(cfg, mono, es, d.link.taken)
  {
    hide Guarded, Open, ClocksRun, IsName, Run, Init, Netlink.KernelVerdict, System.Verdict;
    d := Setup(cfg, mono, pid, oks);
    if d != null {
      d.Serve(es, mono);
      RunGuarded(cfg, mono, offset, es, d.link.taken);
      RunOpen(cfg, mono, es, d.link.taken);
    }
  }

  /** The batches taken decide as the rules of the run's state. */
  ghost predicate Decides(cfg: Config, chain: seq<ChainRule>, taken: seq<seq<byte>>) {
    forall p, regs :: Netlink.KernelVerdict(taken, p, regs) == System.Verdict(cfg, chain, p, regs)
  }

  lemma RunGuarded(cfg: Config, mono: nat, offset: nat, es: seq<Event>, taken: seq<seq<byte>>)
    requires IsName(cfg.iface) && cfg.timeout >= 1 && ClocksRun(mono, offset, es)
    requires Decides(cfg, Run(cfg, mono, es, |es|).chain, taken)
    ensures Guarded(cfg, es, taken)
  {
    hide ClocksRun, IsName, Run, Netlink.KernelVerdict, System.Verdict, Knocks, TokenBehind;
    forall j: nat, p: Pkt, regs |
      j < |es| && es[j].Tick? && IsName(p.iif) && Knocks(cfg, p) && Netlink.KernelVerdict(taken, p, regs) == NF_ACCEPT
      ensures TokenBehind(cfg, es, j, |es|, p)
    {
      AccessNeedsRecentToken(cfg, mono, offset, es, j, |es|, p, regs);
    }
  }

  lemma RunOpen(cfg: Config, mono: nat, es: seq<Event>, taken: seq<seq<byte>>)
    requires IsName(cfg.iface) && Decides(cfg, Run(cfg, mono, es, |es|).chain, taken)
    ensures Open(cfg, mono, es, taken)
  {
    hide IsName, Run, Netlink.KernelVerdict, System.Verdict, Granting, From, RuleAddr;
    forall k: nat, p: Pkt, regs |
      k < |es| && es[k].Packet? && Granting(cfg, mono, es, k, |es|) && IsName(p.iif) && From(p, RuleAddr(es[k].src))
      ensures Netlink.KernelVerdict(taken, p, regs) == NF_ACCEPT
    {
      GrantedHostConnects(cfg, mono, es, k, |es|, p, regs);
    }
  }
}
