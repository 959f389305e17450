/** Anti-replay over every run of the daemon. */
module AntiReplay {
  import opened Bytes
  import opened Addr
  import opened ProbeTable
  import opened Daemon
  import opened Lifetime
  import Replay
  import RateLimit
  import Auth
  import Totp

  /** The counter event k is accepted for, when it is a packet of `ip` that is accepted. */
  ghost function AcceptedFor(cfg: Config, mono: nat, es: seq<Event>, k: nat, ip: Ip): Option<nat>
    requires k < |es|
  {
    if es[k].Packet? && Key(es[k].src) == ip then Accepts(cfg, Run(cfg, mono, es, k), es[k]) else None
  }

  /** The counter last accepted for `ip` among the first n events. */
  ghost function LastAccepted(cfg: Config, mono: nat, es: seq<Event>, n: nat, ip: Ip): Option<nat>
    requires n <= |es|
  {
    if n == 0 then None
    else if AcceptedFor(cfg, mono, es, n - 1, ip).Some? then AcceptedFor(cfg, mono, es, n - 1, ip)
    else LastAccepted(cfg, mono, es, n - 1, ip)
  }

  /** Whenever the run prunes, no entry that is too old lies on the way to a younger entry of `ip`. */
  ghost predicate PathsKeptFor(cfg: Config, mono: nat, es: seq<Event>, ip: Ip) {
    forall k :: 0 <= k < |es| && es[k].Tick? ==>
      var s := Run(cfg, mono, es, k);
      Due(s, es[k]) ==> !Replay.Cuts(s.replay, es[k].now, REPLAY_MAX_AGE, ip)
  }

  /** The prune interval is over. */
  predicate Due(s: State, e: Event)
    requires e.Tick?
  {
    e.mono - s.lastPrune >= PRUNE_INTERVAL
  }

  /** Either the table knows the last accepted counter of `ip`, or that counter has fallen out of
      every window from `latest` on. */
  ghost predicate Remembers(t: Replay.Slots, ip: Ip, last: Option<nat>, latest: nat)
    requires |t| == 64
  {
    && Intact(t, ip)
    && match last
       case None => true
       case Some(c) =>
         match Lookup(t, ip)
         case Some(r) => c == r.lastSeq && r.lastSeen <= latest && c <= r.lastSeen / 30 + 1
         case None => c < latest / 30 - 1
  }

  lemma RemembersLater(t: Replay.Slots, ip: Ip, last: Option<nat>, latest: nat, latest': nat)
    requires |t| == 64 && Remembers(t, ip, last, latest) && latest <= latest'
    ensures Remembers(t, ip, last, latest')
  {
  }

  /** Pruning an entry older than an hour forgets only a counter that no window reaches any more. */
  lemma SweepRemembers(t: Replay.Slots, ip: Ip, last: Option<nat>, now: nat)
    requires |t| == 64 && Remembers(t, ip, last, now) && !Replay.Cuts(t, now, REPLAY_MAX_AGE, ip)
    ensures Remembers(Replay.Prune(t, now, REPLAY_MAX_AGE), ip, last, now)
  {
    hide Intact, Severs, Replay.Cuts, Find;
    var t' := Replay.Prune(t, now, REPLAY_MAX_AGE);
    Replay.CutsSevers(t, now, REPLAY_MAX_AGE, ip);
    FreeIntact(t, t', ip);
    FreeLookup(t, t', ip);
    if last.Some? && Lookup(t, ip).Some? && Lookup(t', ip).None? {
      var p := Find(t, ip).value;
      assert Replay.Expired(t[p], now, REPLAY_MAX_AGE);
      OldCounter(last.value, t[p].rec.lastSeen, now);
    }
  }

  lemma OldCounter(c: nat, seen: nat, now: nat)
    requires c <= seen / 30 + 1 && now - seen > 3600
    ensures c < now / 30 - 1
  {
  }

  /** A packet accepted for `ip` is accepted for a counter above the last one. */
  lemma AcceptedIsFresh(cfg: Config, s: State, e: Event, last: Option<nat>)
    requires Shaped(s) && e.Packet? && Accepts(cfg, s, e).Some?
    requires Remembers(s.replay, Key(e.src), last, e.now)
    ensures last.Some? ==> last.value < Accepts(cfg, s, e).value
  {
    hide Totp.Hotp, Auth.Parse, Key, Intact, Lookup, Target;
    AcceptedCarriesCode(cfg, s, e);
  }

  lemma PacketRemembers(cfg: Config, s: State, e: Event, ip: Ip, last: Option<nat>)
    requires Shaped(s) && e.Packet? && e.now <= e.seenAt
    requires Remembers(s.replay, ip, last, e.now)
    ensures var c := if Key(e.src) == ip then Accepts(cfg, s, e) else None;
            Remembers(HandlePacket(cfg, s, e).replay, ip, if c.Some? then c else last, e.seenAt)
  {
    hide Totp.Hotp, Auth.Parse, Key, Intact, Lookup, Target, Put, Remembers;
    PacketTable(cfg, s, e);
    RemembersLater(s.replay, ip, last, e.now, e.seenAt);
    if Accepts(cfg, s, e).Some? {
      AcceptedCarriesCode(cfg, s, e);
      StoreRemembers(s.replay, Key(e.src), Accepts(cfg, s, e).value, e.now, e.seenAt, ip, last);
    }
  }

  /** What a packet does to the replay table: the record of an accepted counter, or nothing. */
  lemma PacketTable(cfg: Config, s: State, e: Event)
    requires Shaped(s) && e.Packet?
    ensures var c := Accepts(cfg, s, e);
            if c.Some? then Target(s.replay, Key(e.src)).Some?
              && HandlePacket(cfg, s, e).replay == Put(s.replay, Key(e.src), Replay.Record(c.value, e.seenAt))
            else HandlePacket(cfg, s, e).replay == s.replay
  {
    hide Totp.WindowMatch, Auth.Parse, Key, Target, Put, Lookup, RuleAddr;
  }

  lemma StoreRemembers(t: Replay.Slots, key: Ip, c: nat, now: nat, seenAt: nat, ip: Ip, last: Option<nat>)
    requires |t| == 64 && Target(t, key).Some? && c <= now / 30 + 1 && now <= seenAt
    requires Remembers(t, ip, last, seenAt)
    ensures Remembers(Put(t, key, Replay.Record(c, seenAt)), ip, if key == ip then Some(c) else last, seenAt)
  {
    hide Intact, Lookup, Target, Put;
    PutLookup(t, key, Replay.Record(c, seenAt), ip);
    PutIntact(t, key, Replay.Record(c, seenAt), ip);
    assert now / 30 <= seenAt / 30;
  }

  lemma {:induction false} RunRemembers(cfg: Config, mono: nat, offset: nat, es: seq<Event>, n: nat, ip: Ip)
    requires n <= |es| && ClocksRun(mono, offset, es) && PathsKeptFor(cfg, mono, es, ip)
    ensures Remembers(Run(cfg, mono, es, n).replay, ip, LastAccepted(cfg, mono, es, n, ip), Latest(mono, offset, es, n))
  {
    hide Remembers, Replay.Cuts, HandlePacket, PruneCheck, Accepts, Key, Due;
    if n == 0 {
      StartRemembers(ip, mono + offset);
    } else {
      RunRemembers(cfg, mono, offset, es, n - 1, ip);
      var s, e := Run(cfg, mono, es, n - 1), es[n - 1];
      var last := LastAccepted(cfg, mono, es, n - 1, ip);
      assert Latest(mono, offset, es, n - 1) <= e.now;
      RemembersLater(s.replay, ip, last, Latest(mono, offset, es, n - 1), e.now);
      if e.Packet? {
        PacketRemembers(cfg, s, e, ip, last);
      } else {
        TickRemembers(cfg, s, e, ip, last);
      }
    }
  }

  lemma TickRemembers(cfg: Config, s: State, e: Event, ip: Ip, last: Option<nat>)
    requires Shaped(s) && e.Tick? && Remembers(s.replay, ip, last, e.now)
    requires Due(s, e) ==> !Replay.Cuts(s.replay, e.now, REPLAY_MAX_AGE, ip)
    ensures Remembers(PruneCheck(cfg, s, e).replay, ip, last, e.now)
  {
    hide Remembers, Replay.Cuts, PruneCheck;
    TickTable(cfg, s, e);
    if Due(s, e) {
      SweepRemembers(s.replay, ip, last, e.now);
    }
  }

  lemma StartRemembers(ip: Ip, latest: nat)
    ensures Remembers(Replay.Empty(), ip, None, latest)
  {
  }

  lemma TickTable(cfg: Config, s: State, e: Event)
    requires Shaped(s) && e.Tick?
    ensures PruneCheck(cfg, s, e).replay
         == if Due(s, e) then Replay.Prune(s.replay, e.now, REPLAY_MAX_AGE) else s.replay
  {
    hide Rebuild;
    var s1 := s.(lastPrune := e.mono, replay := Replay.Prune(s.replay, e.now, REPLAY_MAX_AGE));
    RebuildTable(cfg, s1, s1.numRules, e.now, e.oks);
  }

  /** The schedule in numbers: a pass less than five seconds after the last pruning changes nothing; any
      other records its time, forgets counters seen more than an hour ago, and prunes the rules. */
  lemma PruneSchedule(cfg: Config, s: State, e: Event)
    requires Shaped(s) && e.Tick?
    ensures e.mono - s.lastPrune < 5 ==> Step(cfg, s, e) == s
    ensures e.mono - s.lastPrune >= 5 ==>
              var s' := Step(cfg, s, e);
              && s'.lastPrune == e.mono && s'.replay == Replay.Prune(s.replay, e.now, 3600) && s'.rate == s.rate
              && s' == PruneRules(cfg, s.(lastPrune := s'.lastPrune, replay := s'.replay), e.now, e.oks)
  {
    hide Rebuild, Replay.Prune;
    TickTable(cfg, s, e);
    var s1 := s.(lastPrune := e.mono, replay := Replay.Prune(s.replay, e.now, REPLAY_MAX_AGE));
    RebuildKeeps(cfg, s1, s1.numRules, e.now, e.oks);
    RebuildRate(cfg, s1, s1.numRules, e.now, e.oks);
  }

  lemma {:induction false} RebuildRate(cfg: Config, s: State, n: nat, now: nat, oks: seq<bool>)
    requires Shaped(s) && n <= s.numRules
    ensures Rebuild(cfg, s, n, now, oks).rate == s.rate
  {
    if n > 0 {
      RebuildRate(cfg, s, n - 1, now, oks);
    }
  }

  /** So the first pruning comes no sooner than five seconds after the start. */
  lemma FirstPruning(cfg: Config, mono: nat, e: Event)
    requires e.Tick? && e.mono < mono + 5
    ensures Step(cfg, Init(mono), e) == Init(mono)
  {
    hide PruneCheck;
    PruneSchedule(cfg, Init(mono), e);
  }

  lemma {:induction false} RebuildTable(cfg: Config, s: State, n: nat, now: nat, oks: seq<bool>)
    requires Shaped(s) && n <= s.numRules
    ensures Rebuild(cfg, s, n, now, oks).replay == s.replay
  {
    if n > 0 {
      RebuildTable(cfg, s, n - 1, now, oks);
    }
  }

  lemma {:induction false} LastIsGreatest(cfg: Config, mono: nat, offset: nat, es: seq<Event>, n: nat, ip: Ip, k: nat)
    requires k < n <= |es| && ClocksRun(mono, offset, es) && PathsKeptFor(cfg, mono, es, ip)
    requires AcceptedFor(cfg, mono, es, k, ip).Some?
    ensures LastAccepted(cfg, mono, es, n, ip).Some?
    ensures AcceptedFor(cfg, mono, es, k, ip).value <= LastAccepted(cfg, mono, es, n, ip).value
  {
    hide Remembers, PathsKeptFor, Accepts, Run;
    if k < n - 1 {
      LastIsGreatest(cfg, mono, offset, es, n - 1, ip, k);
      if AcceptedFor(cfg, mono, es, n - 1, ip).Some? {
        NextIsGreater(cfg, mono, offset, es, n - 1, ip);
      }
    }
  }

  lemma NextIsGreater(cfg: Config, mono: nat, offset: nat, es: seq<Event>, n: nat, ip: Ip)
    requires n < |es| && ClocksRun(mono, offset, es) && PathsKeptFor(cfg, mono, es, ip)
    requires AcceptedFor(cfg, mono, es, n, ip).Some?
    ensures var last := LastAccepted(cfg, mono, es, n, ip);
            last.Some? ==> last.value < AcceptedFor(cfg, mono, es, n, ip).value
  {
    hide Remembers, PathsKeptFor, Run, Accepts;
    RunRemembers(cfg, mono, offset, es, n, ip);
    var s, last := Run(cfg, mono, es, n), LastAccepted(cfg, mono, es, n, ip);
    RemembersLater(s.replay, ip, last, Latest(mono, offset, es, n), es[n].now);
    AcceptedIsFresh(cfg, s, es[n], last);
  }

  /** Over every run whose prunings cut no path of an address, the counters accepted for that
      address strictly increase: with a full table, and across pruning of its own entry. */
  lemma CountersIncrease(cfg: Config, mono: nat, offset: nat, es: seq<Event>, i: nat, j: nat, ip: Ip)
    requires i < j < |es| && ClocksRun(mono, offset, es) && PathsKeptFor(cfg, mono, es, ip)
    requires AcceptedFor(cfg, mono, es, i, ip).Some? && AcceptedFor(cfg, mono, es, j, ip).Some?
    ensures AcceptedFor(cfg, mono, es, i, ip).value < AcceptedFor(cfg, mono, es, j, ip).value
  {
    hide PathsKeptFor, AcceptedFor;
    LastIsGreatest(cfg, mono, offset, es, j, ip, i);
    NextIsGreater(cfg, mono, offset, es, j, ip);
  }

  /** So two packets accepted for one counter, on a run whose prunings cut no path of the first one's
      sender, come from different hosts. */
  lemma OneCounterTwoHosts(cfg: Config, mono: nat, offset: nat, es: seq<Event>, i: nat, j: nat)
    requires i < j < |es| && ClocksRun(mono, offset, es) && es[i].Packet? && es[j].Packet?
    requires PathsKeptFor(cfg, mono, es, Key(es[i].src))
    requires Accepts(cfg, Run(cfg, mono, es, i), es[i]).Some?
    requires Accepts(cfg, Run(cfg, mono, es, j), es[j]) == Accepts(cfg, Run(cfg, mono, es, i), es[i])
    ensures HostOf(es[i].src) != HostOf(es[j].src)
  {
    hide PathsKeptFor, Accepts, Run, ClocksRun, HostOf, Key;
    KeyNamesHost(es[i].src, es[j].src);
    if Key(es[i].src) == Key(es[j].src) {
      CountersIncrease(cfg, mono, offset, es, i, j, Key(es[i].src));
    }
  }

  /** Right after a pruning that an entry of `ip` survives, the token already accepted for that
      entry is accepted once more if and only if an entry too old for the pruning lay on its path. */
  lemma RepeatAcceptedIff(cfg: Config, s: State, e: Event, now: nat)
    requires Shaped(s) && e.Packet? && RateLimit.Allowed(s.rate, Key(e.src), e.now)
    requires var ip := Key(e.src);
             && Intact(s.replay, ip) && Find(s.replay, ip).Some?
             && !Replay.Expired(s.replay[Find(s.replay, ip).value], now, REPLAY_MAX_AGE)
             && Auth.Parse(e.data).Some?
             && Totp.WindowMatch(cfg.secret, Auth.Parse(e.data).value, Window(e.now))
             == Some(Lookup(s.replay, ip).value.lastSeq)
    ensures var s' := s.(replay := Replay.Prune(s.replay, now, REPLAY_MAX_AGE));
            Accepts(cfg, s', e).Some? <==> Replay.Cuts(s.replay, now, REPLAY_MAX_AGE, Key(e.src))
  {
    hide Totp.WindowMatch, Auth.Parse, Key, Intact, Replay.Cuts, Target, Find, RateLimit.Allowed;
    Replay.SurvivorFoundIff(s.replay, now, REPLAY_MAX_AGE, Key(e.src));
  }

  // ---- one-sided, for runs with arbitrary removals ------------------------------------------

  /** The counter a slot holds was accepted earlier for the address it holds. */
  ghost predicate Recorded(cfg: Config, mono: nat, es: seq<Event>, n: nat, ip: Ip, c: nat)
    requires n <= |es|
  {
    exists k :: 0 <= k < n && AcceptedFor(cfg, mono, es, k, ip) == Some(c)
  }

  lemma {:induction false} RunRecorded(cfg: Config, mono: nat, es: seq<Event>, n: nat, p: nat)
    requires n <= |es| && p < 64 && Run(cfg, mono, es, n).replay[p].used
    ensures var slot := Run(cfg, mono, es, n).replay[p]; Recorded(cfg, mono, es, n, slot.ip, slot.rec.lastSeq)
    decreases n
  {
    hide HandlePacket, PruneCheck, Accepts, Key, Probe;
    if n > 0 {
      var s, e := Run(cfg, mono, es, n - 1), es[n - 1];
      var slot := Run(cfg, mono, es, n).replay[p];
      if e.Packet? {
        PacketTable(cfg, s, e);
      } else {
        TickTable(cfg, s, e);
      }
      if slot == s.replay[p] {
        RunRecorded(cfg, mono, es, n - 1, p);
        var k :| 0 <= k < n - 1 && AcceptedFor(cfg, mono, es, k, slot.ip) == Some(slot.rec.lastSeq);
      } else {
        assert AcceptedFor(cfg, mono, es, n - 1, slot.ip) == Some(slot.rec.lastSeq);
      }
    }
  }

  /** On every run: a counter that is refused as seen was reached by an earlier accepted packet of that address. */
  lemma RefusalIsJustified(cfg: Config, mono: nat, es: seq<Event>, n: nat, ip: Ip, c: nat)
    requires n <= |es| && Replay.SeenBefore(Run(cfg, mono, es, n).replay, c, ip)
    ensures exists k, c' :: 0 <= k < n && AcceptedFor(cfg, mono, es, k, ip) == Some(c') && c <= c'
  {
    hide Run, AcceptedFor;
    var t := Run(cfg, mono, es, n).replay;
    var p := Find(t, ip).value;
    RunRecorded(cfg, mono, es, n, p);
    var k :| 0 <= k < n && AcceptedFor(cfg, mono, es, k, ip) == Some(t[p].rec.lastSeq);
    assert c <= t[p].rec.lastSeq;
  }
}
