/** Daemon, kernel and client together. */
module System {
  import opened Bytes
  import opened Addr
  import opened ProbeTable
  import opened Daemon
  import opened Lifetime
  import opened Reconcile
  import opened Firewall
  import opened NftRules
  import Netlink
  import SecretDecode
  import Replay
  import RateLimit
  import Auth
  import Client
  import Totp

  /** The kernel's view of the chain: addresses and interface arguments. */
  function GrantsOf(chain: seq<ChainRule>): (g: seq<Granted>)
    ensures |g| == |chain| && forall i :: 0 <= i < |g| ==> g[i] == Granted(chain[i].addr, chain[i].iface)
  {
    seq(|chain|, i requires 0 <= i < |chain| => Granted(chain[i].addr, chain[i].iface))
  }

  /** Some rule of the chain admits the packet. */
  ghost predicate Opens(chain: seq<ChainRule>, p: Pkt) {
    exists r :: r in chain && From(p, r.addr)
  }

  lemma OpensAdmits(chain: seq<ChainRule>, p: Pkt)
    ensures Admitted(GrantsOf(chain), p) <==> Opens(chain, p)
  {
    hide From;
    if Opens(chain, p) {
      var r :| r in chain && From(p, r.addr);
      var i :| 0 <= i < |chain| && chain[i] == r;
      assert From(p, GrantsOf(chain)[i].addr);
    }
    if Admitted(GrantsOf(chain), p) {
      var i :| 0 <= i < |chain| && From(p, GrantsOf(chain)[i].addr);
      assert chain[i] in chain;
    }
  }

  // ---- interface arguments ------------------------------------------------------------------

  ghost predicate Uniform(chain: seq<ChainRule>, name: seq<byte>) {
    forall r :: r in chain ==> IfaceArg(r.iface, name)
  }

  lemma {:induction false} RebuildUniform(cfg: Config, s: State, n: nat, now: nat, oks: seq<bool>)
    requires Shaped(s) && n <= s.numRules
    ensures Uniform(Rebuild(cfg, s, n, now, oks).chain, cfg.iface)
  {
    if n > 0 {
      RebuildUniform(cfg, s, n - 1, now, oks);
    }
  }

  /** New rules pass NULL for no interface and rebuilt rules pass "": both always stand for the configured name. */
  lemma {:induction false} RunUniform(cfg: Config, mono: nat, es: seq<Event>, n: nat)
    requires n <= |es|
    ensures Uniform(Run(cfg, mono, es, n).chain, cfg.iface)
  {
    hide Step, Uniform;
    if n > 0 {
      RunUniform(cfg, mono, es, n - 1);
      StepUniform(cfg, Run(cfg, mono, es, n - 1), es[n - 1]);
    } else {
      StartUniform(cfg, mono);
    }
  }

  lemma StartUniform(cfg: Config, mono: nat)
    ensures Uniform(Init(mono).chain, cfg.iface)
  {
  }

  lemma StepUniform(cfg: Config, s: State, e: Event)
    requires Shaped(s) && Uniform(s.chain, cfg.iface)
    ensures Uniform(Step(cfg, s, e).chain, cfg.iface)
  {
    hide Validated, Rebuild;
    if e.Tick? {
      var s1 := s.(lastPrune := e.mono, replay := Replay.Prune(s.replay, e.now, REPLAY_MAX_AGE));
      RebuildUniform(cfg, s1, s1.numRules, e.now, e.oks);
    }
  }

  /** The verdict the firewall gives a packet while the chain is as in `chain`. */
  function Verdict(cfg: Config, chain: seq<ChainRule>, p: Pkt, regs: Regs): nat {
    FilterVerdict(cfg.port, cfg.iface, GrantsOf(chain), p, regs)
  }

  /** A new TCP connection to the protected port on the selected interface. */
  predicate Knocks(cfg: Config, p: Pkt) {
    OnIface(p, cfg.iface) && p.proto == 6 && ToPort(p, cfg.port) && !Established(p)
  }

  lemma VerdictMeaning(cfg: Config, chain: seq<ChainRule>, p: Pkt, regs: Regs)
    requires Uniform(chain, cfg.iface) && IsName(cfg.iface) && IsName(p.iif)
    ensures Verdict(cfg, chain, p, regs) == if Knocks(cfg, p) && !Opens(chain, p) then NF_DROP else NF_ACCEPT
  {
    hide FilterVerdict, OnIface, ToPort, Established, IfaceArg, IsName, Admitted, Opens;
    assert AllArgs(GrantsOf(chain), cfg.iface);
    DropsExactly(cfg.port, cfg.iface, GrantsOf(chain), p, regs);
    OpensAdmits(chain, p);
  }

  /** The bytes that carry the input chain and the rules of `chain` give that verdict. */
  lemma WireVerdict(cfg: Config, taken: seq<seq<byte>>, chain: seq<ChainRule>, p: Pkt, regs: Regs)
    requires Netlink.Carries(taken, cfg.port, cfg.iface, GrantsOf(chain))
    ensures Netlink.KernelVerdict(taken, p, regs) == Verdict(cfg, chain, p, regs)
  {
    hide Netlink.Carries, Netlink.KernelVerdict, FilterVerdict;
    Netlink.CarriedVerdict(taken, cfg.port, cfg.iface, GrantsOf(chain), p, regs);
  }

  // ---- safety -------------------------------------------------------------------------------

  /** One of the first n events is a genuine packet of a host that p comes from, less than timeout + 5
      seconds before event j. */
  ghost predicate TokenBehind(cfg: Config, es: seq<Event>, j: nat, n: nat, p: Pkt)
    requires j < n <= |es|
  {
    exists k, a :: 0 <= k < n && Genuine(cfg, es[k], a) && From(p, a) && es[j].now < es[k].now + cfg.timeout + 5
  }

  /** After any event that follows a prune check at time t, on every run: a new connection to the
      protected port that the firewall lets through comes from a host that sent a genuine token later
      than t - timeout - 5. */
  lemma AccessNeedsRecentToken(cfg: Config, mono: nat, offset: nat, es: seq<Event>, j: nat, n: nat, p: Pkt, regs: Regs)
    requires j < n <= |es| && es[j].Tick? && ClocksRun(mono, offset, es) && cfg.timeout >= 1
    requires IsName(cfg.iface) && IsName(p.iif) && Knocks(cfg, p)
    requires Verdict(cfg, Run(cfg, mono, es, n).chain, p, regs) == NF_ACCEPT
    ensures TokenBehind(cfg, es, j, n, p)
  {
    hide Run, Genuine, From, Verdict, Knocks, Uniform, IsName;
    RunUniform(cfg, mono, es, n);
    var chain := Run(cfg, mono, es, n).chain;
    VerdictMeaning(cfg, chain, p, regs);
    var r :| r in chain && From(p, r.addr);
    LifetimeBound(cfg, mono, offset, es, j, n, r);
    var k :| 0 <= k < n && Genuine(cfg, es[k], r.addr) && r.deadline == es[k].now + cfg.timeout;
  }

  /** The same of the bytes: when what the kernel took carries the rules of the run's state, a new
      connection that it lets through had its token. */
  lemma SentRulesGuard(cfg: Config, mono: nat, offset: nat, es: seq<Event>, j: nat, n: nat,
                       taken: seq<seq<byte>>, p: Pkt, regs: Regs)
    requires j < n <= |es| && es[j].Tick? && ClocksRun(mono, offset, es) && cfg.timeout >= 1
    requires IsName(cfg.iface) && IsName(p.iif) && Knocks(cfg, p)
    requires Netlink.Carries(taken, cfg.port, cfg.iface, GrantsOf(Run(cfg, mono, es, n).chain))
    requires Netlink.KernelVerdict(taken, p, regs) == NF_ACCEPT
    ensures TokenBehind(cfg, es, j, n, p)
  {
    hide Run, Genuine, From, Verdict, Knocks, IsName, Netlink.Carries, Netlink.KernelVerdict;
    WireVerdict(cfg, taken, Run(cfg, mono, es, n).chain, p, regs);
    AccessNeedsRecentToken(cfg, mono, offset, es, j, n, p, regs);
  }

  // ---- prunings and verdicts ----------------------------------------------------------------

  lemma {:induction false} InstalledHas(chain: seq<ChainRule>, addr: SockAddr, deadline: nat)
    ensures Installed(chain)[(addr, deadline)] > 0
       <==> exists r :: r in chain && r.addr == addr && r.deadline == deadline
  {
    if |chain| > 0 {
      var init, last := chain[..|chain| - 1], chain[|chain| - 1];
      InstalledHas(init, addr, deadline);
      assert chain == init + [last];
    }
  }

  /** After a pruning of a reconciled state a packet is admitted exactly if an unexpired rule admitted it
      before. */
  lemma PruneAdmits(cfg: Config, s: State, now: nat, oks: seq<bool>, p: Pkt)
    requires Shaped(s) && AllTaken(oks) && Installed(s.chain) == Tracked(s)
    ensures Opens(PruneRules(cfg, s, now, oks).chain, p) <==> StillOpens(s.chain, now, p)
  {
    hide From, PruneRules, Installed, Tracked, AllTaken;
    var after := PruneRules(cfg, s, now, oks).chain;
    if Opens(after, p) {
      var r :| r in after && From(p, r.addr);
      SameGrant(cfg, s, now, oks, r.addr, r.deadline);
    }
    if r :| r in s.chain && now < r.deadline && From(p, r.addr) {
      SameGrant(cfg, s, now, oks, r.addr, r.deadline);
    }
  }

  /** Some rule of the chain that has not ended admits the packet. */
  ghost predicate StillOpens(chain: seq<ChainRule>, now: nat, p: Pkt) {
    exists r :: r in chain && now < r.deadline && From(p, r.addr)
  }

  /** The verdict after a pruning of a reconciled state; it changes for no packet but those that only
      rules that have ended admitted. */
  lemma PruneVerdicts(cfg: Config, s: State, now: nat, oks: seq<bool>, p: Pkt, regs: Regs)
    requires Shaped(s) && AllTaken(oks) && Installed(s.chain) == Tracked(s)
    requires Uniform(s.chain, cfg.iface) && IsName(cfg.iface) && IsName(p.iif)
    ensures var before := Verdict(cfg, s.chain, p, regs);
            var after := Verdict(cfg, PruneRules(cfg, s, now, oks).chain, p, regs);
            && after == (if Knocks(cfg, p) && !StillOpens(s.chain, now, p) then NF_DROP else NF_ACCEPT)
            && (before != after ==> Opens(s.chain, p) && !StillOpens(s.chain, now, p))
  {
    hide Rebuild, Verdict, Knocks, StillOpens, Installed, Tracked, AllTaken, IsName;
    PruneAdmits(cfg, s, now, oks, p);
    RebuildUniform(cfg, s, s.numRules, now, oks);
    VerdictMeaning(cfg, s.chain, p, regs);
    VerdictMeaning(cfg, PruneRules(cfg, s, now, oks).chain, p, regs);
    if StillOpens(s.chain, now, p) {
      StillOpensOpens(s.chain, now, p);
    }
  }

  lemma StillOpensOpens(chain: seq<ChainRule>, now: nat, p: Pkt)
    requires StillOpens(chain, now, p)
    ensures Opens(chain, p)
  {
  }

  lemma SameGrant(cfg: Config, s: State, now: nat, oks: seq<bool>, addr: SockAddr, deadline: nat)
    requires Shaped(s) && AllTaken(oks) && Installed(s.chain) == Tracked(s)
    ensures (exists r :: r in PruneRules(cfg, s, now, oks).chain && r.addr == addr && r.deadline == deadline)
       <==> now < deadline && exists r :: r in s.chain && r.addr == addr && r.deadline == deadline
  {
    hide PruneRules, Installed, Tracked, AllTaken;
    PruneDropsOnlyExpired(cfg, s, now, oks, (addr, deadline));
    InstalledHas(s.chain, addr, deadline);
    InstalledHas(PruneRules(cfg, s, now, oks).chain, addr, deadline);
  }

  // ---- availability -------------------------------------------------------------------------

  ghost predicate InChain(chain: seq<ChainRule>, addr: SockAddr, deadline: nat) {
    exists r :: r in chain && r.addr == addr && r.deadline == deadline
  }

  /** The chain after a packet: one more rule if it is accepted and the kernel takes it, else the same. */
  lemma PacketChain(cfg: Config, s: State, e: Event)
    requires Shaped(s) && e.Packet?
    ensures var c := HandlePacket(cfg, s, e).chain;
            if Accepts(cfg, s, e).Some? && e.inserted
            then |c| == |s.chain| + 1 && c[..|s.chain|] == s.chain
              && c[|s.chain|].addr == RuleAddr(e.src) && c[|s.chain|].deadline == e.now + cfg.timeout
            else c == s.chain
  {
    hide Validated, Grant, RuleAddr, RateLimit.Allowed, RateLimit.Fail, RateLimit.Success, Key;
    if !RateLimit.Allowed(s.rate, Key(e.src), e.now) {
      BlockedIsRefused(cfg, s, e);
    }
    GrantChain(cfg, Authenticated(cfg, s, e), RuleAddr(e.src), e.now + cfg.timeout);
  }

  lemma BlockedIsRefused(cfg: Config, s: State, e: Event)
    requires Shaped(s) && e.Packet? && !RateLimit.Allowed(s.rate, Key(e.src), e.now)
    ensures Accepts(cfg, s, e).None?
  {
    hide Auth.Validate, Key, RateLimit.Allowed;
  }

  lemma GrantChain(cfg: Config, s: State, addr: SockAddr, deadline: nat)
    requires Shaped(s)
    ensures var c := Grant(cfg, s, addr, deadline).chain;
            && |c| == |s.chain| + 1 && c[..|s.chain|] == s.chain && c[|s.chain|].addr == addr
            && c[|s.chain|].deadline == deadline
  {
  }

  lemma PacketGrows(cfg: Config, s: State, e: Event)
    requires Shaped(s) && e.Packet?
    ensures forall r :: r in s.chain ==> r in HandlePacket(cfg, s, e).chain
    ensures Accepts(cfg, s, e).Some? && e.inserted ==>
              InChain(HandlePacket(cfg, s, e).chain, RuleAddr(e.src), e.now + cfg.timeout)
  {
    hide HandlePacket, Accepts, RuleAddr;
    PacketChain(cfg, s, e);
    var chain := HandlePacket(cfg, s, e).chain;
    if Accepts(cfg, s, e).Some? && e.inserted {
      assert chain[|s.chain|] in chain;
      forall r | r in s.chain
        ensures r in chain
      {
        assert r in chain[..|s.chain|];
      }
    }
  }

  ghost predicate TracksGrant(r: Rule, addr: SockAddr, deadline: nat) {
    r.active && r.addr == addr && r.expiry == deadline
  }

  /** The grant is in the kernel, and slot i tracks it. */
  ghost predicate Anchored(s: State, i: nat, addr: SockAddr, deadline: nat) {
    i < |s.rules| && TracksGrant(s.rules[i], addr, deadline) && InChain(s.chain, addr, deadline)
  }

  /** The rebuild re-inserts an unexpired tracked grant, whatever the other slots hold. */
  lemma {:induction false} RebuildAnchors(cfg: Config, s: State, n: nat, now: nat, oks: seq<bool>,
                                          i: nat, addr: SockAddr, deadline: nat)
    requires Shaped(s) && i < n <= s.numRules && Takes(oks, i)
    requires TracksGrant(s.rules[i], addr, deadline) && now < deadline
    ensures Anchored(Rebuild(cfg, s, n, now, oks), i, addr, deadline)
  {
    var s', p := Rebuild(cfg, s, n, now, oks), Rebuild(cfg, s, n - 1, now, oks);
    if i < n - 1 {
      RebuildAnchors(cfg, s, n - 1, now, oks, i, addr, deadline);
      var r :| r in p.chain && r.addr == addr && r.deadline == deadline;
      assert r in s'.chain;
    } else {
      var r := ChainRule(addr, Some(cfg.iface), deadline);
      assert p.rules[i] == s.rules[i] && s'.chain == p.chain + [r];
    }
  }

  lemma TickAnchors(cfg: Config, s: State, e: Event, i: nat, addr: SockAddr, deadline: nat)
    requires Shaped(s) && e.Tick? && Anchored(s, i, addr, deadline) && AllTaken(e.oks) && e.now < deadline
    ensures Anchored(PruneCheck(cfg, s, e), i, addr, deadline)
  {
    hide Rebuild, InChain;
    var s1 := s.(lastPrune := e.mono, replay := Replay.Prune(s.replay, e.now, REPLAY_MAX_AGE));
    assert i < s1.numRules && Takes(e.oks, i);
    RebuildAnchors(cfg, s1, s1.numRules, e.now, e.oks, i, addr, deadline);
  }

  lemma PacketAnchors(cfg: Config, s: State, e: Event, i: nat, addr: SockAddr, deadline: nat)
    requires Shaped(s) && e.Packet? && Anchored(s, i, addr, deadline)
    ensures Anchored(HandlePacket(cfg, s, e), i, addr, deadline)
  {
    hide Validated, RuleAddr, RateLimit.Allowed, RateLimit.Fail, RateLimit.Success, Key;
    PacketGrows(cfg, s, e);
  }

  /** An accepted packet that finds a free slot. */
  lemma GrantAnchors(cfg: Config, s: State, e: Event) returns (i: nat)
    requires Shaped(s) && e.Packet? && e.inserted && Accepts(cfg, s, e).Some? && HasRoom(s)
    ensures Anchored(HandlePacket(cfg, s, e), i, RuleAddr(e.src), e.now + cfg.timeout)
  {
    hide Validated, RuleAddr, RateLimit.Allowed, RateLimit.Fail, RateLimit.Success, Key, InChain;
    i := FirstFree(s.rules, 0);
    PacketGrows(cfg, s, e);
    if !RateLimit.Allowed(s.rate, Key(e.src), e.now) {
      BlockedIsRefused(cfg, s, e);
    }
  }

  /** Packet k is accepted and its rule taken, a slot is free for it, and the passes up to event n come
      before its deadline and have their re-insertions taken. */
  ghost predicate Granting(cfg: Config, mono: nat, es: seq<Event>, k: nat, n: nat)
    requires k < n <= |es|
  {
    && es[k].Packet? && es[k].inserted && Accepts(cfg, Run(cfg, mono, es, k), es[k]).Some?
    && HasRoom(Run(cfg, mono, es, k))
    && forall j :: k < j < n && es[j].Tick? ==> AllTaken(es[j].oks) && es[j].now < es[k].now + cfg.timeout
  }

  lemma {:induction false} GrantAnchored(cfg: Config, mono: nat, es: seq<Event>, k: nat, n: nat) returns (i: nat)
    requires k < n <= |es| && Granting(cfg, mono, es, k, n)
    ensures Anchored(Run(cfg, mono, es, n), i, RuleAddr(es[k].src), es[k].now + cfg.timeout)
    decreases n
  {
    hide Anchored, RuleAddr, Accepts, HandlePacket, PruneCheck, AllTaken, HasRoom;
    var s, e := Run(cfg, mono, es, n - 1), es[n - 1];
    var addr, deadline := RuleAddr(es[k].src), es[k].now + cfg.timeout;
    if n == k + 1 {
      i := GrantAnchors(cfg, s, e);
    } else {
      i := GrantAnchored(cfg, mono, es, k, n - 1);
      if e.Packet? {
        PacketAnchors(cfg, s, e, i, addr, deadline);
      } else {
        TickAnchors(cfg, s, e, i, addr, deadline);
      }
    }
  }

  /** On every run, an accepted packet that found a free slot keeps its rule in the kernel until its
      timeout has passed: also when other grants overflow the array in the meantime. */
  lemma GrantStaysOpen(cfg: Config, mono: nat, es: seq<Event>, k: nat, n: nat)
    requires k < n <= |es| && Granting(cfg, mono, es, k, n)
    ensures InChain(Run(cfg, mono, es, n).chain, RuleAddr(es[k].src), es[k].now + cfg.timeout)
  {
    hide Run, RuleAddr, Granting;
    var i := GrantAnchored(cfg, mono, es, k, n);
  }

  /** For that long the firewall accepts every packet of the host. */
  lemma GrantedHostConnects(cfg: Config, mono: nat, es: seq<Event>, k: nat, n: nat, p: Pkt, regs: Regs)
    requires k < n <= |es| && Granting(cfg, mono, es, k, n)
    requires IsName(cfg.iface) && IsName(p.iif) && From(p, RuleAddr(es[k].src))
    ensures Verdict(cfg, Run(cfg, mono, es, n).chain, p, regs) == NF_ACCEPT
  {
    hide Run, Granting, From, RuleAddr, Verdict, Knocks, Uniform, IsName;
    GrantStaysOpen(cfg, mono, es, k, n);
    RunUniform(cfg, mono, es, n);
    VerdictMeaning(cfg, Run(cfg, mono, es, n).chain, p, regs);
  }

  // ---- client to firewall -------------------------------------------------------------------

  /** Client and daemon are within one time step of each other. */
  predicate Near(clientNow: nat, now: nat) { now / 30 - 1 <= clientNow / 30 <= now / 30 + 1 }

  /** No counter recorded for the sender reaches into the current window. */
  predicate Unused(s: State, ip: Ip, now: nat)
    requires |s.replay| == 64
  {
    match Lookup(s.replay, ip)
    case Some(r) => r.lastSeq < Totp.Oldest(Window(now))
    case None => true
  }

  /** What the client sends when its secret is `secret`. */
  function ClientPacket(secret: seq<byte>, clientNow: nat): seq<byte> {
    Client.Format(Totp.Hotp(secret, clientNow / 30, 6), 6)
  }

  lemma ClientTokenMatches(secret: seq<byte>, clientNow: nat, now: nat)
    requires Near(clientNow, now)
    ensures Auth.Parse(ClientPacket(secret, clientNow)) == Some(Totp.Hotp(secret, clientNow / 30, 6))
    ensures var c := Totp.WindowMatch(secret, Totp.Hotp(secret, clientNow / 30, 6), Window(now));
            c.Some? && Totp.Oldest(Window(now)) <= c.value <= now / 30 + 1
  {
    hide Totp.Hotp, Auth.Parse, Client.Format;
    var p, token := Window(now), Totp.Hotp(secret, clientNow / 30, 6);
    Client.FormatParses(token);
    Totp.FirstMatchIsLeast(secret, 6, token, Totp.Oldest(p), Totp.Current(p) + 1, clientNow / 30);
  }

  /** A client's packet is granted whenever the clocks are near, the sender is not blocked, no counter
      recorded for it reaches the window, the table has room and the kernel takes the rule: whichever
      way each side had the secret written down. The sender's new connections are then let through. */
  lemma ClientPacketGranted(cfg: Config, s: State, e: Event, clientText: string, daemonText: string,
                            secret: seq<byte>, clientNow: nat)
    requires Shaped(s) && e.Packet? && e.inserted
    requires SecretDecode.Writes(clientText, secret) && SecretDecode.Writes(daemonText, secret)
    requires Some(cfg.secret) == SecretDecode.Named(daemonText).1
    requires var own := SecretDecode.Named(clientText).1; own.Some? && e.data == ClientPacket(own.value, clientNow)
    requires Near(clientNow, e.now) && Unused(s, Key(e.src), e.now)
    requires RateLimit.Allowed(s.rate, Key(e.src), e.now) && Target(s.replay, Key(e.src)).Some?
    ensures var s' := HandlePacket(cfg, s, e);
            && |s'.chain| == |s.chain| + 1 && s'.chain[..|s.chain|] == s.chain
            && s'.chain[|s.chain|].addr == RuleAddr(e.src) && s'.chain[|s.chain|].deadline == e.now + cfg.timeout
            && forall p: Pkt, regs ::
                 Uniform(s.chain, cfg.iface) && IsName(cfg.iface) && IsName(p.iif) && From(p, RuleAddr(e.src))
                 ==> Verdict(cfg, s'.chain, p, regs) == NF_ACCEPT
  {
    hide ClientPacket, SecretDecode.Named, From, RuleAddr, HandlePacket, Accepts;
    hide Key, Target, RateLimit.Allowed, Unused;
    hide Verdict, Knocks, Uniform, IsName;
    SecretDecode.AnyWritingDecodes(clientText, secret);
    SecretDecode.AnyWritingDecodes(daemonText, secret);
    ClientAccepted(cfg, s, e, clientNow);
    PacketChain(cfg, s, e);
    var chain := HandlePacket(cfg, s, e).chain;
    assert chain[|s.chain|] in chain;
    forall p: Pkt, regs | Uniform(s.chain, cfg.iface) && IsName(cfg.iface) && IsName(p.iif) && From(p, RuleAddr(e.src))
      ensures Verdict(cfg, chain, p, regs) == NF_ACCEPT
    {
      HandlePacketUniform(cfg, s, e);
      VerdictMeaning(cfg, chain, p, regs);
    }
  }

  lemma HandlePacketUniform(cfg: Config, s: State, e: Event)
    requires Shaped(s) && e.Packet? && Uniform(s.chain, cfg.iface)
    ensures Uniform(HandlePacket(cfg, s, e).chain, cfg.iface)
  {
    hide HandlePacket, Uniform;
    StepUniform(cfg, s, e);
  }

  lemma ClientAccepted(cfg: Config, s: State, e: Event, clientNow: nat)
    requires Shaped(s) && e.Packet? && e.data == ClientPacket(cfg.secret, clientNow)
    requires Near(clientNow, e.now) && Unused(s, Key(e.src), e.now)
    requires RateLimit.Allowed(s.rate, Key(e.src), e.now) && Target(s.replay, Key(e.src)).Some?
    ensures Accepts(cfg, s, e).Some?
  {
    hide ClientPacket, Auth.Parse, Totp.WindowMatch, Totp.Oldest, Key, Target, Lookup, RateLimit.Allowed;
    ClientTokenMatches(cfg.secret, clientNow, e.now);
  }
}
