/** The rate limiter inside the daemon: what it means that a packet is dropped unread. */
module DaemonRates {
  import opened Bytes
  import opened Addr
  import opened ProbeTable
  import opened Daemon
  import RateLimit
  import Replay
  import AntiReplay
  import R = RateLimitRuns

  /** What an event does to the failure table, if anything. */
  ghost function RateOp(cfg: Config, s: State, e: Event): seq<R.Op>
    requires Shaped(s)
  {
    if !e.Packet? || !RateLimit.Allowed(s.rate, Key(e.src), e.now) then []
    else if Accepts(cfg, s, e).Some? then [R.Succeeded(Key(e.src))]
    else [R.Failed(Key(e.src), e.now)]
  }

  /** The operations of the first n events on the failure table. */
  ghost function RateOps(cfg: Config, mono: nat, es: seq<Event>, n: nat): seq<R.Op>
    requires n <= |es|
  {
    if n == 0 then [] else RateOps(cfg, mono, es, n - 1) + RateOp(cfg, Run(cfg, mono, es, n - 1), es[n - 1])
  }

  lemma StepRate(cfg: Config, s: State, e: Event)
    requires Shaped(s)
    ensures var ops := RateOp(cfg, s, e);
            Step(cfg, s, e).rate == if |ops| == 0 then s.rate else R.Step(cfg.rate, s.rate, ops[0])
  {
    hide Validated, Rebuild, Key, RateLimit.Allowed, RateLimit.Fail, RateLimit.Success;
    if e.Tick? {
      var s1 := s.(lastPrune := e.mono, replay := Replay.Prune(s.replay, e.now, REPLAY_MAX_AGE));
      AntiReplay.RebuildRate(cfg, s1, s1.numRules, e.now, e.oks);
    }
  }

  lemma {:induction false} RatePrefix(cfg: RateLimit.Config, ops: seq<R.Op>, more: seq<R.Op>, n: nat)
    requires n <= |ops|
    ensures R.Run(cfg, RateLimit.Empty(), ops + more, n) == R.Run(cfg, RateLimit.Empty(), ops, n)
  {
    hide R.Step;
    if n > 0 {
      RatePrefix(cfg, ops, more, n - 1);
    }
  }

  /** The daemon's failure table is the table those operations produce. */
  lemma {:induction false} RunRate(cfg: Config, mono: nat, es: seq<Event>, n: nat)
    requires n <= |es|
    ensures var ops := RateOps(cfg, mono, es, n);
            Run(cfg, mono, es, n).rate == R.Run(cfg.rate, RateLimit.Empty(), ops, |ops|)
  {
    hide Step, RateOp, R.Step;
    if n > 0 {
      RunRate(cfg, mono, es, n - 1);
      var s, ops := Run(cfg, mono, es, n - 1), RateOps(cfg, mono, es, n - 1);
      var more := RateOp(cfg, s, es[n - 1]);
      StepRate(cfg, s, es[n - 1]);
      AtMostOne(cfg, s, es[n - 1]);
      RatePrefix(cfg.rate, ops, more, |ops|);
      if |more| == 0 {
        assert ops + more == ops;
      } else {
        assert (ops + more)[|ops|] == more[0];
      }
    }
  }

  lemma AtMostOne(cfg: Config, s: State, e: Event)
    requires Shaped(s)
    ensures |RateOp(cfg, s, e)| <= 1
  {
  }

  /** The failures the table counts are packets of that address that were read and not accepted, and
      they come in the order of the events. */
  ghost predicate FromEvent(cfg: Config, mono: nat, es: seq<Event>, k: nat, op: R.Op)
    requires k < |es|
  {
    && es[k].Packet? && op.ip == Key(es[k].src)
    && (op.Failed? ==> op.now == es[k].now && Accepts(cfg, Run(cfg, mono, es, k), es[k]).None?)
  }

  ghost predicate Traced(cfg: Config, mono: nat, es: seq<Event>, n: nat, ops: seq<R.Op>)
    requires n <= |es|
  {
    forall op :: op in ops ==> HasSource(cfg, mono, es, n, op)
  }

  ghost predicate HasSource(cfg: Config, mono: nat, es: seq<Event>, n: nat, op: R.Op)
    requires n <= |es|
  {
    exists k: nat :: k < n && FromEvent(cfg, mono, es, k, op)
  }

  lemma {:induction false} OpsFromEvents(cfg: Config, mono: nat, offset: nat, es: seq<Event>, n: nat)
    requires n <= |es| && ClocksRun(mono, offset, es)
    ensures var ops := RateOps(cfg, mono, es, n);
            R.ClockRuns(ops) && Traced(cfg, mono, es, n, ops)
  {
    hide RateOp, Run, FromEvent;
    if n > 0 {
      OpsFromEvents(cfg, mono, offset, es, n - 1);
      var ops, more := RateOps(cfg, mono, es, n - 1), RateOp(cfg, Run(cfg, mono, es, n - 1), es[n - 1]);
      OpFromEvent(cfg, mono, es, n - 1);
      var all := ops + more;
      TracedMore(cfg, mono, es, n - 1, ops, more);
      forall i, j | 0 <= i < j < |all| && all[i].Failed? && all[j].Failed?
        ensures all[i].now <= all[j].now
      {
        if j >= |ops| {
          assert ops[i] in ops && HasSource(cfg, mono, es, n - 1, ops[i]);
          var k: nat :| k < n - 1 && FromEvent(cfg, mono, es, k, ops[i]);
          EarlierEvent(cfg, mono, offset, es, k, n - 1, ops[i], more[0]);
        }
      }
      assert RateOps(cfg, mono, es, n) == all;
    }
  }

  lemma TracedMore(cfg: Config, mono: nat, es: seq<Event>, n: nat, ops: seq<R.Op>, more: seq<R.Op>)
    requires n < |es| && Traced(cfg, mono, es, n, ops) && |more| <= 1
    requires (|more| == 1 ==> FromEvent(cfg, mono, es, n, more[0]))
    ensures Traced(cfg, mono, es, n + 1, ops + more)
  {
    hide FromEvent;
    forall op | op in ops + more
      ensures HasSource(cfg, mono, es, n + 1, op)
    {
      if op in ops {
        var k: nat :| k < n && FromEvent(cfg, mono, es, k, op);
      }
    }
  }

  lemma OpFromEvent(cfg: Config, mono: nat, es: seq<Event>, n: nat)
    requires n < |es|
    ensures var more := RateOp(cfg, Run(cfg, mono, es, n), es[n]);
            |more| <= 1 && (|more| == 1 ==> FromEvent(cfg, mono, es, n, more[0]))
  {
    hide Run, Accepts, Key;
  }

  lemma EarlierEvent(cfg: Config, mono: nat, offset: nat, es: seq<Event>, j: nat, k: nat, a: R.Op, b: R.Op)
    requires j < k < |es| && ClocksRun(mono, offset, es) && a.Failed? && b.Failed?
    requires FromEvent(cfg, mono, es, j, a) && FromEvent(cfg, mono, es, k, b)
    ensures a.now <= b.now
  {
    hide Run, Accepts, Key;
  }

  /** On every run: an address whose packets are dropped unread has had at least maxFails of its own
      packets refused inside one window, the last of them less than one block ago; the block is the k-th
      of a series of blocks it earned one after the other, and has the k-th duration. */
  lemma BlockedHostFailed(cfg: Config, mono: nat, offset: nat, es: seq<Event>, n: nat, ip: Ip, now: nat)
    returns (k: nat, p: nat, from: nat, before: nat, until: nat)
    requires n <= |es| && ClocksRun(mono, offset, es) && !RateLimit.Allowed(Run(cfg, mono, es, n).rate, ip, now)
    ensures var ops := RateOps(cfg, mono, es, n);
            && k >= 1 && R.Begins(cfg.rate, ops, p, ip, k, from, before, until) && now < until
            && R.Series(cfg.rate, ops, p, ip, k - 1, before)
            && Traced(cfg, mono, es, n, ops)
  {
    hide Run, Traced, R.Run, R.ClockRuns, R.Series, R.Begins, RateOps, RateLimit.Allowed;
    RunRate(cfg, mono, es, n);
    OpsFromEvents(cfg, mono, offset, es, n);
    k, p, from, before, until := R.NoUnjustifiedBlock(cfg.rate, RateOps(cfg, mono, es, n), ip, now);
  }

  // ---- enough refused packets do block --------------------------------------------------------

  ghost predicate Refused(cfg: Config, mono: nat, es: seq<Event>, k: nat, ip: Ip)
    requires k < |es|
  {
    es[k].Packet? && Key(es[k].src) == ip && Accepts(cfg, Run(cfg, mono, es, k), es[k]).None?
  }

  /** How many packets of `ip` are refused among the events from i to n. */
  ghost function Refusals(cfg: Config, mono: nat, es: seq<Event>, i: nat, n: nat, ip: Ip): nat
    requires i <= n <= |es|
  {
    if n == i then 0 else Refusals(cfg, mono, es, i, n - 1, ip) + if Refused(cfg, mono, es, n - 1, ip) then 1 else 0
  }

  /** No packet is accepted of `ip` itself, or of a host whose entry lies on the way to that of `ip`. */
  ghost predicate Left(cfg: Config, s: State, e: Event, ip: Ip)
    requires Shaped(s)
  {
    e.Packet? && Accepts(cfg, s, e).Some? ==> Key(e.src) != ip && !R.OnPath(s.rate, Key(e.src), ip)
  }

  ghost predicate LeftAlone(cfg: Config, mono: nat, es: seq<Event>, i: nat, n: nat, ip: Ip)
    requires n <= |es|
  {
    forall k :: i <= k < n ==> Left(cfg, Run(cfg, mono, es, k), es[k], ip)
  }

  ghost predicate WithinWindow(cfg: Config, es: seq<Event>, i: nat, n: nat, ip: Ip, first: nat)
    requires n <= |es|
  {
    forall k :: i <= k < n && es[k].Packet? && Key(es[k].src) == ip ==> first <= es[k].now <= first + cfg.rate.window
  }

  /** One event's effect on an entry that is found: a packet that is read and refused counts. */
  lemma HostStep(cfg: Config, s: State, e: Event, ip: Ip)
    requires Shaped(s) && Intact(s.rate, ip) && Lookup(s.rate, ip).Some? && Left(cfg, s, e, ip)
    ensures var s', entry := Step(cfg, s, e), Lookup(s.rate, ip).value;
            var counts := e.Packet? && Key(e.src) == ip && entry.blockUntil <= e.now;
            && Intact(s'.rate, ip)
            && Lookup(s'.rate, ip) == Some(if counts then RateLimit.FailEntry(entry, e.now, cfg.rate) else entry)
  {
    hide Step, Intact, Accepts, Key, Find, RateLimit.FailEntry, R.OnPath, R.Step;
    StepRate(cfg, s, e);
    var ops := RateOp(cfg, s, e);
    if |ops| > 0 {
      R.KeepsEntry(cfg.rate, s.rate, ops[0], ip);
    }
  }

  /** The first refused packet of a host that has no entry and finds room for one. */
  lemma HostEnters(cfg: Config, s: State, e: Event, ip: Ip)
    requires Shaped(s) && e.Packet? && Key(e.src) == ip && Accepts(cfg, s, e).None?
    requires Intact(s.rate, ip) && Lookup(s.rate, ip).None? && Target(s.rate, ip).Some?
    ensures var s' := Step(cfg, s, e); Intact(s'.rate, ip) && Lookup(s'.rate, ip) == Some(RateLimit.FirstEntry(e.now))
  {
    hide Step, Intact, Accepts, Key, Find, Target, R.Step;
    StepRate(cfg, s, e);
    R.FirstStep(cfg.rate, s.rate, ip, e.now);
  }

  /** The host's first refused packet is event i, and nothing hides its entry from then on. */
  ghost predicate Watched(cfg: Config, mono: nat, es: seq<Event>, i: nat, n: nat, ip: Ip)
    requires i < n <= |es|
  {
    && Refused(cfg, mono, es, i, ip) && LeftAlone(cfg, mono, es, i, n, ip)
    && var t := Run(cfg, mono, es, i).rate; Intact(t, ip) && Lookup(t, ip).None? && Target(t, ip).Some?
  }

  lemma {:induction false} HostCounts(cfg: Config, mono: nat, es: seq<Event>, i: nat, n: nat, ip: Ip)
    requires i < n <= |es| && Watched(cfg, mono, es, i, n, ip) && WithinWindow(cfg, es, i, n, ip, es[i].now)
    requires Refusals(cfg, mono, es, i, n, ip) < cfg.rate.maxFails < TWO32
    ensures var t := Run(cfg, mono, es, n).rate;
            && Intact(t, ip)
            && Lookup(t, ip) == Some(RateLimit.Entry(Refusals(cfg, mono, es, i, n, ip), es[i].now, 0, 0))
    decreases n
  {
    hide Step, Intact, Accepts, Key, Lookup, Target, RateLimit.FailEntry, R.OnPath;
    var s, e := Run(cfg, mono, es, n - 1), es[n - 1];
    if n == i + 1 {
      HostEnters(cfg, s, e, ip);
      assert Refusals(cfg, mono, es, i, i, ip) == 0;
    } else {
      HostCounts(cfg, mono, es, i, n - 1, ip);
      assert Left(cfg, s, e, ip);
      HostStep(cfg, s, e, ip);
      if e.Packet? && Key(e.src) == ip {
        R.CountsOne(cfg.rate, Refusals(cfg, mono, es, i, n - 1, ip), es[i].now, e.now);
      }
    }
  }

  /** Event m - 1 is the packet that completes maxFails refusals inside one window; until the block it
      starts is over, the host sends what it likes up to event n. */
  ghost predicate Completes(cfg: Config, mono: nat, es: seq<Event>, i: nat, m: nat, n: nat, ip: Ip)
    requires i < m <= n <= |es|
  {
    && Refused(cfg, mono, es, m - 1, ip) && Refusals(cfg, mono, es, i, m, ip) == cfg.rate.maxFails
    && WithinWindow(cfg, es, i, m, ip, es[i].now)
    && forall k :: m <= k < n && es[k].Packet? && Key(es[k].src) == ip ==> es[k].now < es[m - 1].now + cfg.rate.minBlock
  }

  lemma {:induction false} HostEntry(cfg: Config, mono: nat, es: seq<Event>, i: nat, m: nat, n: nat, ip: Ip)
    requires i + 1 < m <= n <= |es| && 2 <= cfg.rate.maxFails < TWO32
    requires Watched(cfg, mono, es, i, n, ip) && Completes(cfg, mono, es, i, m, n, ip)
    ensures var t := Run(cfg, mono, es, n).rate; var until := es[m - 1].now + cfg.rate.minBlock;
            && Intact(t, ip)
            && Lookup(t, ip) == Some(RateLimit.Entry(cfg.rate.maxFails, es[i].now, until, cfg.rate.minBlock))
    decreases n
  {
    hide Step, Intact, Accepts, Key, Lookup, Target, RateLimit.FailEntry, R.OnPath;
    var s, e := Run(cfg, mono, es, n - 1), es[n - 1];
    assert Left(cfg, s, e, ip);
    if n == m {
      HostCounts(cfg, mono, es, i, n - 1, ip);
      R.CountsOne(cfg.rate, Refusals(cfg, mono, es, i, n - 1, ip), es[i].now, e.now);
    } else {
      HostEntry(cfg, mono, es, i, m, n - 1, ip);
    }
    HostStep(cfg, s, e, ip);
  }

  /** On every run of the daemon: once maxFails packets of a host are refused inside one window, every
      further packet of it is dropped unread and changes nothing, for exactly minBlock seconds from the
      last of them, whatever comes from other hosts in the meantime and leaves its entry reachable. */
  lemma ThresholdBlocksHost(cfg: Config, mono: nat, es: seq<Event>, i: nat, m: nat, n: nat, e: Event)
    requires i + 1 < m <= n <= |es| && 2 <= cfg.rate.maxFails < TWO32 && e.Packet?
    requires Watched(cfg, mono, es, i, n, Key(e.src)) && Completes(cfg, mono, es, i, m, n, Key(e.src))
    ensures var s, until := Run(cfg, mono, es, n), es[m - 1].now + cfg.rate.minBlock;
            && (RateLimit.Allowed(s.rate, Key(e.src), e.now) <==> until <= e.now)
            && (e.now < until ==> HandlePacket(cfg, s, e) == s)
  {
    hide Run, Watched, Completes, Key, Intact, Lookup, Grant, Validated, RateLimit.Fail;
    HostEntry(cfg, mono, es, i, m, n, Key(e.src));
  }
}
