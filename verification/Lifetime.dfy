/** Safety over every run of the daemon: each rule in the kernel chain goes back to a genuine
    packet from its host, and is gone in time even when the tracking array overflows. */
module Lifetime {
  import opened Bytes
  import opened Addr
  import opened Daemon
  import Auth
  import Replay
  import Totp

  /** The packet came from the host of `addr` and carried the code of a counter at most one step
      away from the daemon's own. */
  ghost predicate Genuine(cfg: Config, e: Event, addr: SockAddr) {
    && e.Packet?
    && HostOf(e.src) == HostOf(addr)
    && exists c :: CarriesCode(cfg, e, c)
  }

  ghost predicate CarriesCode(cfg: Config, e: Event, c: nat)
    requires e.Packet?
  {
    && e.now / 30 - 1 <= c <= e.now / 30 + 1
    && Auth.Parse(e.data) == Some(Totp.Hotp(cfg.secret, c, 6))
  }

  /** A grant to `addr` that ends at `deadline` goes back to one of the first n events. */
  ghost predicate Justified(cfg: Config, es: seq<Event>, n: nat, addr: SockAddr, deadline: nat) {
    exists k :: 0 <= k < n && k < |es| && Genuine(cfg, es[k], addr) && deadline == es[k].now + cfg.timeout
  }

  /** Some tracked rule runs out no later than `deadline`. */
  ghost predicate Covered(rules: seq<Rule>, deadline: nat) {
    exists i :: 0 <= i < |rules| && rules[i].active && rules[i].expiry <= deadline
  }

  /** The invariant of the tracked rules and the chain. `wall` is the wall clock at the last
      pruning, `latest` the time of the last event. */
  ghost predicate Inv(cfg: Config, es: seq<Event>, n: nat, rules: seq<Rule>, chain: seq<ChainRule>, wall: nat,
                      latest: nat) {
    && |rules| == MAX_RULES
    && (forall i :: 0 <= i < MAX_RULES && rules[i].active ==>
          && wall < rules[i].expiry <= latest + cfg.timeout
          && Justified(cfg, es, n, rules[i].addr, rules[i].expiry))
    && (forall r :: r in chain ==> Covered(rules, r.deadline) && Justified(cfg, es, n, r.addr, r.deadline))
  }

  // ---- packets ----------------------------------------------------------------------------

  lemma AcceptedCarriesCode(cfg: Config, s: State, e: Event)
    requires Shaped(s) && e.Packet? && Accepts(cfg, s, e).Some?
    ensures CarriesCode(cfg, e, Accepts(cfg, s, e).value)
  {
    hide Totp.Hotp, Replay.SeenBefore, Auth.Parse, Key;
    var token := Auth.Parse(e.data).value;
    var p := Window(e.now);
    Totp.FirstMatchIsLeast(cfg.secret, 6, token, Totp.Oldest(p), Totp.Current(p) + 1, 0);
  }

  lemma AcceptedIsGenuine(cfg: Config, s: State, e: Event)
    requires Shaped(s) && e.Packet? && Accepts(cfg, s, e).Some?
    ensures Genuine(cfg, e, RuleAddr(e.src))
  {
    hide CarriesCode, Accepts, RuleAddr, HostOf;
    KeyNamesHost(e.src, e.src);
    AcceptedCarriesCode(cfg, s, e);
  }

  lemma PacketKeeps(cfg: Config, es: seq<Event>, n: nat, s: State, wall: nat, latest: nat)
    requires n < |es| && es[n].Packet? && cfg.timeout >= 1 && Shaped(s)
    requires Inv(cfg, es, n, s.rules, s.chain, wall, latest) && wall <= es[n].now && latest <= es[n].now <= es[n].seenAt
    ensures var s' := Step(cfg, s, es[n]); Inv(cfg, es, n + 1, s'.rules, s'.chain, wall, es[n].seenAt)
  {
    hide Inv, Genuine, Validated, Grant;
    var e := es[n];
    InvLater(cfg, es, n, s.rules, s.chain, wall, latest, e.seenAt);
    if Accepts(cfg, s, e).Some? && e.inserted {
      AcceptedIsGenuine(cfg, s, e);
      GrantKeeps(cfg, es, n, Authenticated(cfg, s, e), wall, latest);
    }
  }

  /** A new rule, tracked or not. */
  lemma GrantKeeps(cfg: Config, es: seq<Event>, n: nat, s: State, wall: nat, latest: nat)
    requires n < |es| && es[n].Packet? && cfg.timeout >= 1 && Shaped(s)
    requires Inv(cfg, es, n, s.rules, s.chain, wall, latest) && wall <= es[n].now && latest <= es[n].now <= es[n].seenAt
    requires Genuine(cfg, es[n], RuleAddr(es[n].src))
    ensures var s' := Grant(cfg, s, RuleAddr(es[n].src), es[n].now + cfg.timeout);
            Inv(cfg, es, n + 1, s'.rules, s'.chain, wall, es[n].seenAt)
  {
    hide Genuine, RuleAddr;
    var e, f := es[n], FirstFree(s.rules, 0);
    var addr, deadline := RuleAddr(e.src), e.now + cfg.timeout;
    var s' := Grant(cfg, s, addr, deadline);
    assert Justified(cfg, es, n + 1, addr, deadline);
    assert Covered(s'.rules, deadline) by {
      var i := if f < MAX_RULES then f else 0;
      assert s'.rules[i].active && s'.rules[i].expiry <= deadline;
    }
    forall r | r in s.chain
      ensures Covered(s'.rules, r.deadline) && Justified(cfg, es, n + 1, r.addr, r.deadline)
    {
      var i :| 0 <= i < |s.rules| && s.rules[i].active && s.rules[i].expiry <= r.deadline;
      assert s'.rules[i] == s.rules[i];
    }
  }

  lemma InvLater(cfg: Config, es: seq<Event>, n: nat, rules: seq<Rule>, chain: seq<ChainRule>, wall: nat,
                 latest: nat, latest': nat)
    requires Inv(cfg, es, n, rules, chain, wall, latest) && latest <= latest'
    ensures Inv(cfg, es, n + 1, rules, chain, wall, latest')
  {
    hide Genuine;
    assert forall addr, d :: Justified(cfg, es, n, addr, d) ==> Justified(cfg, es, n + 1, addr, d);
  }

  // ---- loop passes --------------------------------------------------------------------------

  /** Slot i still tracks, unexpired, the rule that r stands for. */
  ghost predicate Tracks(rule: Rule, r: ChainRule) {
    rule.active && rule.expiry == r.deadline && rule.addr == r.addr
  }

  /** The rebuilt prefix: tracked rules are unexpired old ones, chain rules are tracked. */
  lemma {:induction false} RebuildKeeps(cfg: Config, s: State, n: nat, now: nat, oks: seq<bool>)
    requires Shaped(s) && n <= s.numRules
    ensures var s' := Rebuild(cfg, s, n, now, oks);
            && (forall i :: 0 <= i < n && s'.rules[i].active ==>
                  && s.rules[i].active && now < s'.rules[i].expiry == s.rules[i].expiry
                  && s'.rules[i].addr == s.rules[i].addr)
            && (forall r :: r in s'.chain ==> exists i :: 0 <= i < n && Tracks(s'.rules[i], r))
            && s'.lastPrune == s.lastPrune
  {
    if n > 0 {
      RebuildKeeps(cfg, s, n - 1, now, oks);
      var p, s' := Rebuild(cfg, s, n - 1, now, oks), Rebuild(cfg, s, n, now, oks);
      forall r | r in s'.chain
        ensures exists i :: 0 <= i < n && Tracks(s'.rules[i], r)
      {
        if r in p.chain {
          var i :| 0 <= i < n - 1 && Tracks(p.rules[i], r);
          assert s'.rules[i] == p.rules[i];
        } else {
          assert Tracks(s'.rules[n - 1], r);
        }
      }
    }
  }

  lemma PruneKeeps(cfg: Config, es: seq<Event>, n: nat, s: State, wall: nat, latest: nat, now: nat, oks: seq<bool>)
    requires Shaped(s) && Inv(cfg, es, n, s.rules, s.chain, wall, latest) && latest <= now
    ensures var s' := PruneRules(cfg, s, now, oks);
            Inv(cfg, es, n, s'.rules, s'.chain, now, now) && s'.lastPrune == s.lastPrune
  {
    hide Justified;
    var s' := PruneRules(cfg, s, now, oks);
    if FoundExpired(s.rules, s.numRules, now) {
      RebuildKeeps(cfg, s, s.numRules, now, oks);
      forall r | r in s'.chain
        ensures Covered(s'.rules, r.deadline) && Justified(cfg, es, n, r.addr, r.deadline)
      {
        var i :| 0 <= i < s.numRules && Tracks(s'.rules[i], r);
        assert s.rules[i].active;
      }
    }
  }

  // ---- runs ---------------------------------------------------------------------------------

  /** When the last of the first n events was over; the start of the run before any. */
  function Latest(mono: nat, offset: nat, es: seq<Event>, n: nat): nat
    requires n <= |es|
  {
    if n == 0 then mono + offset else End(es[n - 1])
  }

  lemma {:induction false} RunKeeps(cfg: Config, mono: nat, offset: nat, es: seq<Event>, n: nat)
    requires n <= |es| && ClocksRun(mono, offset, es) && cfg.timeout >= 1
    ensures var s := Run(cfg, mono, es, n);
            && s.lastPrune + offset <= Latest(mono, offset, es, n)
            && Inv(cfg, es, n, s.rules, s.chain, s.lastPrune + offset, Latest(mono, offset, es, n))
  {
    hide Inv, Step;
    if n > 0 {
      RunKeeps(cfg, mono, offset, es, n - 1);
      var s, e, latest := Run(cfg, mono, es, n - 1), es[n - 1], Latest(mono, offset, es, n - 1);
      assert latest <= e.now;
      if e.Packet? {
        PacketKeeps(cfg, es, n - 1, s, s.lastPrune + offset, latest);
        LastPruneKept(cfg, s, e);
      } else {
        TickKeeps(cfg, es, n - 1, s, offset, latest);
      }
    } else {
      InitInv(cfg, mono, offset, es);
    }
  }

  lemma InitInv(cfg: Config, mono: nat, offset: nat, es: seq<Event>)
    ensures Inv(cfg, es, 0, Init(mono).rules, Init(mono).chain, mono + offset, mono + offset)
  {
  }

  lemma LastPruneKept(cfg: Config, s: State, e: Event)
    requires Shaped(s) && e.Packet?
    ensures Step(cfg, s, e).lastPrune == s.lastPrune
  {
    hide Validated;
  }

  lemma TickKeeps(cfg: Config, es: seq<Event>, n: nat, s: State, offset: nat, latest: nat)
    requires n < |es| && es[n].Tick? && es[n].now == es[n].mono + offset && Shaped(s)
    requires Inv(cfg, es, n, s.rules, s.chain, s.lastPrune + offset, latest)
    requires s.lastPrune + offset <= latest <= es[n].now
    ensures var s' := Step(cfg, s, es[n]);
            && s'.lastPrune + offset <= es[n].now
            && Inv(cfg, es, n + 1, s'.rules, s'.chain, s'.lastPrune + offset, es[n].now)
  {
    hide Inv, PruneRules;
    var e := es[n];
    if e.mono - s.lastPrune >= PRUNE_INTERVAL {
      var s1 := s.(lastPrune := e.mono, replay := Replay.Prune(s.replay, e.now, REPLAY_MAX_AGE));
      PruneKeeps(cfg, es, n, s1, s.lastPrune + offset, latest, e.now, e.oks);
      var s' := PruneRules(cfg, s1, e.now, e.oks);
      InvLater(cfg, es, n, s'.rules, s'.chain, e.now, e.now, e.now);
    } else {
      InvLater(cfg, es, n, s.rules, s.chain, s.lastPrune + offset, latest, e.now);
    }
  }

  /** After a prune check the last pruning is less than five seconds old, and pruning times never fall. */
  lemma {:induction false} PrunedRecently(cfg: Config, mono: nat, es: seq<Event>, j: nat, n: nat)
    requires j < n <= |es| && es[j].Tick?
    ensures Run(cfg, mono, es, n).lastPrune > es[j].mono - PRUNE_INTERVAL
  {
    hide Step;
    if n > j + 1 {
      PrunedRecently(cfg, mono, es, j, n - 1);
    }
    LastPruneStep(cfg, Run(cfg, mono, es, n - 1), es[n - 1]);
  }

  lemma LastPruneStep(cfg: Config, s: State, e: Event)
    requires Shaped(s)
    ensures Step(cfg, s, e).lastPrune >= s.lastPrune
    ensures e.Tick? ==> Step(cfg, s, e).lastPrune > e.mono - PRUNE_INTERVAL
  {
    hide Validated, Rebuild;
    if e.Tick? {
      var s1 := s.(lastPrune := e.mono, replay := Replay.Prune(s.replay, e.now, REPLAY_MAX_AGE));
      RebuildKeeps(cfg, s1, s1.numRules, e.now, e.oks);
    }
  }

  /** After any event that follows a prune check at time t, every rule in the kernel chain has a deadline
      later than t - 5, and goes back to a genuine packet of its own host, sent `timeout` before that
      deadline: on every run, also when more grants are alive than the tracking array holds. */
  lemma LifetimeBound(cfg: Config, mono: nat, offset: nat, es: seq<Event>, j: nat, n: nat, r: ChainRule)
    requires j < n <= |es| && es[j].Tick? && ClocksRun(mono, offset, es) && cfg.timeout >= 1
    requires r in Run(cfg, mono, es, n).chain
    ensures r.deadline > es[j].now - 5
    ensures exists k :: 0 <= k < n && Genuine(cfg, es[k], r.addr) && r.deadline == es[k].now + cfg.timeout
  {
    hide Genuine, Inv, Run;
    RunKeeps(cfg, mono, offset, es, n);
    PrunedRecently(cfg, mono, es, j, n);
    var s := Run(cfg, mono, es, n);
    CoveredDeadline(cfg, es, n, s.rules, s.chain, s.lastPrune + offset, Latest(mono, offset, es, n), r);
  }

  lemma CoveredDeadline(cfg: Config, es: seq<Event>, n: nat, rules: seq<Rule>, chain: seq<ChainRule>, wall: nat,
                        latest: nat, r: ChainRule)
    requires Inv(cfg, es, n, rules, chain, wall, latest) && r in chain
    ensures wall < r.deadline && Justified(cfg, es, n, r.addr, r.deadline)
  {
    hide Justified;
    var i :| 0 <= i < |rules| && rules[i].active && rules[i].expiry <= r.deadline;
  }

  // ---- justification without any clock assumption ---------------------------------------------

  ghost predicate AllJustified(cfg: Config, es: seq<Event>, n: nat, rules: seq<Rule>, chain: seq<ChainRule>) {
    && (forall i :: 0 <= i < |rules| && rules[i].active ==> Justified(cfg, es, n, rules[i].addr, rules[i].expiry))
    && (forall r :: r in chain ==> Justified(cfg, es, n, r.addr, r.deadline))
  }

  lemma GrantJustified(cfg: Config, es: seq<Event>, n: nat, s: State)
    requires n < |es| && es[n].Packet? && Shaped(s) && AllJustified(cfg, es, n + 1, s.rules, s.chain)
    requires Genuine(cfg, es[n], RuleAddr(es[n].src))
    ensures var s' := Grant(cfg, s, RuleAddr(es[n].src), es[n].now + cfg.timeout);
            AllJustified(cfg, es, n + 1, s'.rules, s'.chain)
  {
    hide Genuine, RuleAddr;
    assert Justified(cfg, es, n + 1, RuleAddr(es[n].src), es[n].now + cfg.timeout);
  }

  lemma PruneJustified(cfg: Config, es: seq<Event>, n: nat, s: State, now: nat, oks: seq<bool>)
    requires Shaped(s) && AllJustified(cfg, es, n, s.rules, s.chain)
    ensures var s' := PruneRules(cfg, s, now, oks); AllJustified(cfg, es, n, s'.rules, s'.chain)
  {
    hide Justified;
    var s' := PruneRules(cfg, s, now, oks);
    if FoundExpired(s.rules, s.numRules, now) {
      RebuildKeeps(cfg, s, s.numRules, now, oks);
      forall r | r in s'.chain
        ensures Justified(cfg, es, n, r.addr, r.deadline)
      {
        var i :| 0 <= i < s.numRules && Tracks(s'.rules[i], r);
        assert s.rules[i].active;
      }
    }
  }

  lemma StepJustified(cfg: Config, es: seq<Event>, n: nat, s: State)
    requires n < |es| && Shaped(s) && AllJustified(cfg, es, n, s.rules, s.chain)
    ensures var s' := Step(cfg, s, es[n]); AllJustified(cfg, es, n + 1, s'.rules, s'.chain)
  {
    hide Justified, Genuine, Validated, Grant, PruneRules;
    var e := es[n];
    LaterJustified(cfg, es, n, s.rules, s.chain);
    if e.Tick? {
      var s1 := s.(lastPrune := e.mono, replay := Replay.Prune(s.replay, e.now, REPLAY_MAX_AGE));
      PruneJustified(cfg, es, n + 1, s1, e.now, e.oks);
    } else if Accepts(cfg, s, e).Some? && e.inserted {
      AcceptedIsGenuine(cfg, s, e);
      GrantJustified(cfg, es, n, Authenticated(cfg, s, e));
    }
  }

  lemma LaterJustified(cfg: Config, es: seq<Event>, n: nat, rules: seq<Rule>, chain: seq<ChainRule>)
    requires AllJustified(cfg, es, n, rules, chain)
    ensures AllJustified(cfg, es, n + 1, rules, chain)
  {
    hide Genuine;
    assert forall addr, d :: Justified(cfg, es, n, addr, d) ==> Justified(cfg, es, n + 1, addr, d);
  }

  lemma {:induction false} RunJustified(cfg: Config, mono: nat, es: seq<Event>, n: nat)
    requires n <= |es|
    ensures var s := Run(cfg, mono, es, n); AllJustified(cfg, es, n, s.rules, s.chain)
  {
    hide Step, Justified;
    if n > 0 {
      RunJustified(cfg, mono, es, n - 1);
      StepJustified(cfg, es, n - 1, Run(cfg, mono, es, n - 1));
    }
  }

  /** Whatever the clocks do, after every event of every run each rule in the kernel chain goes back
      to an earlier packet of its own host that carried the code of a counter within one step. */
  lemma EveryRuleIsJustified(cfg: Config, mono: nat, es: seq<Event>, n: nat, r: ChainRule)
    requires n <= |es| && r in Run(cfg, mono, es, n).chain
    ensures exists k :: 0 <= k < n && Genuine(cfg, es[k], r.addr) && r.deadline == es[k].now + cfg.timeout
  {
    hide Run, Genuine;
    RunJustified(cfg, mono, es, n);
  }
}
