/** How the kernel chain and the tracked-rule array correspond. */
module Reconcile {
  import opened Bytes
  import opened Addr
  import opened Daemon
  import Replay

  /** A grant: the address it opens the port for and the time it ends. */
  type Grants = multiset<(SockAddr, nat)>

  /** The grants of the active rules among the first n that end later than `now`. */
  ghost function Live(rules: seq<Rule>, n: nat, now: int): Grants
    requires n <= |rules|
  {
    if n == 0 then multiset{}
    else
      var r := rules[n - 1];
      if r.active && now < r.expiry then Live(rules, n - 1, now) + multiset{(r.addr, r.expiry)}
      else Live(rules, n - 1, now)
  }

  /** The grants of all active rules. */
  ghost function Tracked(s: State): Grants { Live(s.rules, |s.rules|, -1) }

  /** The grants the kernel chain stands for. */
  ghost function Installed(chain: seq<ChainRule>): Grants {
    if |chain| == 0 then multiset{}
    else Installed(chain[..|chain| - 1]) + multiset{(chain[|chain| - 1].addr, chain[|chain| - 1].deadline)}
  }

  lemma InstalledSnoc(chain: seq<ChainRule>, r: ChainRule)
    ensures Installed(chain + [r]) == Installed(chain) + multiset{(r.addr, r.deadline)}
  {
    assert (chain + [r])[..|chain|] == chain;
  }

  ghost predicate AllTaken(oks: seq<bool>) {
    |oks| >= MAX_RULES && forall i :: 0 <= i < |oks| ==> oks[i]
  }

  // ---- the array --------------------------------------------------------------------------

  lemma {:induction false} LiveSame(a: seq<Rule>, b: seq<Rule>, n: nat, now: int)
    requires n <= |a| && n <= |b| && forall i :: 0 <= i < n ==> a[i] == b[i]
    ensures Live(a, n, now) == Live(b, n, now)
  {
    if n > 0 {
      LiveSame(a, b, n - 1, now);
    }
  }

  lemma {:induction false} LiveTail(rules: seq<Rule>, n: nat, m: nat, now: int)
    requires n <= m <= |rules| && forall i :: n <= i < m ==> !rules[i].active
    ensures Live(rules, m, now) == Live(rules, n, now)
  {
    if n < m {
      LiveTail(rules, n, m - 1, now);
    }
  }

  /** Filling a free slot adds one grant. */
  lemma {:induction false} LiveFill(rules: seq<Rule>, n: nat, f: nat, rule: Rule, now: int)
    requires f < n <= |rules| && !rules[f].active && rule.active && now < rule.expiry
    ensures Live(rules[f := rule], n, now) == Live(rules, n, now) + multiset{(rule.addr, rule.expiry)}
  {
    if f < n - 1 {
      LiveFill(rules, n - 1, f, rule, now);
    } else {
      LiveSame(rules[f := rule], rules, n - 1, now);
    }
  }

  /** Raising the bound removes exactly the grants that end by then. */
  lemma {:induction false} LiveFilter(rules: seq<Rule>, n: nat, now: nat, x: (SockAddr, nat))
    requires n <= |rules|
    ensures Live(rules, n, now)[x] == if x.1 <= now then 0 else Live(rules, n, -1)[x]
  {
    if n > 0 {
      var y := (rules[n - 1].addr, rules[n - 1].expiry);
      LiveFilter(rules, n - 1, now, x);
      CountOne(Live(rules, n - 1, now), y, x);
      CountOne(Live(rules, n - 1, -1), y, x);
    }
  }

  lemma CountOne(g: Grants, y: (SockAddr, nat), x: (SockAddr, nat))
    ensures (g + multiset{y})[x] == g[x] + if x == y then 1 else 0
  {
  }

  /** With nothing expired the bound removes nothing. */
  lemma {:induction false} LiveAll(rules: seq<Rule>, n: nat, now: nat)
    requires n <= |rules| && !FoundExpired(rules, n, now)
    ensures Live(rules, n, now) == Live(rules, n, -1)
  {
    if n > 0 {
      LiveAll(rules, n - 1, now);
    }
  }

  // ---- grants -------------------------------------------------------------------------------

  ghost predicate HasRoom(s: State) { FirstFree(s.rules, 0) < |s.rules| }

  /** A grant always reaches the chain; it reaches the array if and only if a slot is free. */
  lemma GrantAdds(cfg: Config, s: State, addr: SockAddr, deadline: nat)
    requires Shaped(s)
    ensures var s' := Grant(cfg, s, addr, deadline); var x := multiset{(addr, deadline)};
            && Installed(s'.chain) == Installed(s.chain) + x
            && Tracked(s') == Tracked(s) + if HasRoom(s) then x else multiset{}
  {
    var iface := if cfg.iface != [] then Some(cfg.iface) else None;
    InstalledSnoc(s.chain, ChainRule(addr, iface, deadline));
    if HasRoom(s) {
      LiveFill(s.rules, |s.rules|, FirstFree(s.rules, 0), Rule(true, s.nextHandle, deadline, addr), -1);
    }
  }

  // ---- the rebuild --------------------------------------------------------------------------

  /** What the rebuild does to each slot it reaches: an ended grant is dropped, a re-inserted one gets a new
      handle, and one whose re-insertion is refused stays tracked as it was. */
  lemma {:induction false} RebuildSlot(cfg: Config, s: State, n: nat, now: nat, oks: seq<bool>, i: nat)
    requires Shaped(s) && i < n <= s.numRules
    ensures var rule, s' := s.rules[i], Rebuild(cfg, s, n, now, oks);
            && s.nextHandle <= s'.nextHandle
            && (!rule.active ==> s'.rules[i] == rule)
            && (rule.active && rule.expiry <= now ==> s'.rules[i] == rule.(active := false))
            && (rule.active && now < rule.expiry && !Takes(oks, i) ==> s'.rules[i] == rule)
            && (rule.active && now < rule.expiry && Takes(oks, i) ==>
                  && s'.rules[i] == rule.(handle := s'.rules[i].handle)
                  && s.nextHandle <= s'.rules[i].handle < s'.nextHandle)
  {
    if i < n - 1 {
      RebuildSlot(cfg, s, n - 1, now, oks, i);
    } else {
      HandlesGrow(cfg, s, n - 1, now, oks);
    }
  }

  lemma {:induction false} HandlesGrow(cfg: Config, s: State, n: nat, now: nat, oks: seq<bool>)
    requires Shaped(s) && n <= s.numRules
    ensures s.nextHandle <= Rebuild(cfg, s, n, now, oks).nextHandle
  {
    if n > 0 {
      HandlesGrow(cfg, s, n - 1, now, oks);
    }
  }

  /** One turn of the rebuild loop when the kernel takes every rule. */
  lemma RebuildTurn(cfg: Config, s: State, n: nat, now: nat, oks: seq<bool>)
    requires Shaped(s) && 1 <= n <= s.numRules && AllTaken(oks)
    ensures var p, s' := Rebuild(cfg, s, n - 1, now, oks), Rebuild(cfg, s, n, now, oks);
            var rule, rule' := s.rules[n - 1], s'.rules[n - 1];
            && (forall i :: 0 <= i < n - 1 ==> s'.rules[i] == p.rules[i])
            && rule'.active == (rule.active && now < rule.expiry) && rule'.expiry == rule.expiry
            && rule'.addr == rule.addr
            && s'.chain
            == if rule'.active then p.chain + [ChainRule(rule.addr, Some(cfg.iface), rule.expiry)] else p.chain
  {
  }

  lemma RebuildNone(cfg: Config, s: State, now: nat, oks: seq<bool>)
    requires Shaped(s)
    ensures Rebuild(cfg, s, 0, now, oks).chain == []
  {
  }

  lemma {:induction false} RebuildInstalls(cfg: Config, s: State, n: nat, now: nat, oks: seq<bool>)
    requires Shaped(s) && n <= s.numRules && AllTaken(oks)
    ensures Installed(Rebuild(cfg, s, n, now, oks).chain) == Live(s.rules, n, now)
  {
    hide AllTaken, Rebuild;
    if n > 0 {
      RebuildInstalls(cfg, s, n - 1, now, oks);
      RebuildTurn(cfg, s, n, now, oks);
      var rule := s.rules[n - 1];
      InstalledSnoc(Rebuild(cfg, s, n - 1, now, oks).chain, ChainRule(rule.addr, Some(cfg.iface), rule.expiry));
    } else {
      RebuildNone(cfg, s, now, oks);
    }
  }

  lemma {:induction false} RebuildTracks(cfg: Config, s: State, n: nat, now: nat, oks: seq<bool>)
    requires Shaped(s) && n <= s.numRules && AllTaken(oks)
    ensures Live(Rebuild(cfg, s, n, now, oks).rules, n, -1) == Live(s.rules, n, now)
  {
    hide AllTaken;
    if n > 0 {
      RebuildTracks(cfg, s, n - 1, now, oks);
      RebuildTurn(cfg, s, n, now, oks);
      LiveSame(Rebuild(cfg, s, n - 1, now, oks).rules, Rebuild(cfg, s, n, now, oks).rules, n - 1, -1);
    }
  }

  /** After a flush the kernel holds exactly the tracked grants that have not ended, whatever it held before. */
  lemma FlushInstallsTracked(cfg: Config, s: State, now: nat, oks: seq<bool>, x: (SockAddr, nat))
    requires Shaped(s) && AllTaken(oks) && FoundExpired(s.rules, s.numRules, now)
    ensures var s' := PruneRules(cfg, s, now, oks);
            && Installed(s'.chain) == Tracked(s')
            && Installed(s'.chain)[x] == if x.1 <= now then 0 else Tracked(s)[x]
  {
    hide Rebuild;
    var s', n := PruneRules(cfg, s, now, oks), s.numRules;
    RebuildInstalls(cfg, s, n, now, oks);
    RebuildTracks(cfg, s, n, now, oks);
    LiveTail(s.rules, n, |s.rules|, -1);
    LiveTail(s'.rules, n, |s'.rules|, -1);
    LiveFilter(s.rules, n, now, x);
  }

  /** A pruning of a reconciled state removes the grants that have ended and no others. */
  lemma PruneDropsOnlyExpired(cfg: Config, s: State, now: nat, oks: seq<bool>, x: (SockAddr, nat))
    requires Shaped(s) && AllTaken(oks) && Installed(s.chain) == Tracked(s)
    ensures var s' := PruneRules(cfg, s, now, oks);
            && Installed(s'.chain) == Tracked(s')
            && Installed(s'.chain)[x] == if x.1 <= now then 0 else Installed(s.chain)[x]
  {
    hide Rebuild, Live, Installed;
    if FoundExpired(s.rules, s.numRules, now) {
      FlushInstallsTracked(cfg, s, now, oks, x);
    } else {
      LiveTail(s.rules, s.numRules, |s.rules|, -1);
      LiveAll(s.rules, s.numRules, now);
      LiveFilter(s.rules, s.numRules, now, x);
    }
  }

  /** A grant outlives the next flush before its deadline if and only if the array had room for it:
      one made on a full array is in the chain at first, and lost with the flush. */
  lemma GrantSurvivesFlushIff(cfg: Config, s: State, addr: SockAddr, deadline: nat, now: nat, oks: seq<bool>)
    requires Shaped(s) && AllTaken(oks) && now < deadline
    requires var s1 := Grant(cfg, s, addr, deadline); FoundExpired(s1.rules, s1.numRules, now)
    ensures var s1 := Grant(cfg, s, addr, deadline); var x := (addr, deadline);
            && Installed(s1.chain)[x] == Installed(s.chain)[x] + 1
            && Installed(PruneRules(cfg, s1, now, oks).chain)[x] == Tracked(s)[x] + if HasRoom(s) then 1 else 0
  {
    hide PruneRules, Grant, Tracked, Installed;
    GrantAdds(cfg, s, addr, deadline);
    FlushInstallsTracked(cfg, Grant(cfg, s, addr, deadline), now, oks, (addr, deadline));
  }

  // ---- runs ---------------------------------------------------------------------------------

  /** Every re-insertion succeeds and no accepted packet finds the array full. */
  ghost predicate Smooth(cfg: Config, mono: nat, es: seq<Event>) {
    forall k :: 0 <= k < |es| ==>
      (match es[k]
       case Tick(_, _, oks) => AllTaken(oks)
       case Packet(_, _, _, _, inserted) =>
         inserted && Accepts(cfg, Run(cfg, mono, es, k), es[k]).Some? ==> HasRoom(Run(cfg, mono, es, k)))
  }

  /** On every such run, after every event, the kernel chain is exactly the tracked rules. */
  lemma {:induction false} ChainIsTracked(cfg: Config, mono: nat, es: seq<Event>, n: nat)
    requires n <= |es| && Smooth(cfg, mono, es)
    ensures Installed(Run(cfg, mono, es, n).chain) == Tracked(Run(cfg, mono, es, n))
  {
    hide Installed, Live, HandlePacket, PruneCheck, Accepts, AllTaken;
    if n == 0 {
      StartReconciled(mono);
    } else {
      ChainIsTracked(cfg, mono, es, n - 1);
      var s, e := Run(cfg, mono, es, n - 1), es[n - 1];
      if e.Packet? {
        PacketReconciled(cfg, s, e);
      } else {
        TickReconciled(cfg, s, e);
      }
    }
  }

  lemma StartReconciled(mono: nat)
    ensures Installed(Init(mono).chain) == Tracked(Init(mono))
  {
    LiveTail(Init(mono).rules, 0, MAX_RULES, -1);
  }

  lemma PacketReconciled(cfg: Config, s: State, e: Event)
    requires Shaped(s) && e.Packet? && Installed(s.chain) == Tracked(s)
    requires e.inserted && Accepts(cfg, s, e).Some? ==> HasRoom(s)
    ensures Installed(HandlePacket(cfg, s, e).chain) == Tracked(HandlePacket(cfg, s, e))
  {
    hide Installed, Live, Validated, Grant, RuleAddr;
    if Accepts(cfg, s, e).Some? && e.inserted {
      GrantAdds(cfg, Authenticated(cfg, s, e), RuleAddr(e.src), e.now + cfg.timeout);
    }
  }

  lemma TickReconciled(cfg: Config, s: State, e: Event)
    requires Shaped(s) && e.Tick? && AllTaken(e.oks) && Installed(s.chain) == Tracked(s)
    ensures Installed(PruneCheck(cfg, s, e).chain) == Tracked(PruneCheck(cfg, s, e))
  {
    hide Installed, Live, PruneRules, AllTaken;
    if e.mono - s.lastPrune >= PRUNE_INTERVAL {
      var s1 := s.(lastPrune := e.mono, replay := Replay.Prune(s.replay, e.now, REPLAY_MAX_AGE));
      PruneDropsOnlyExpired(cfg, s1, e.now, e.oks, (V4(Zeros(4), 0), 0));
    }
  }
}
